/** Bringing the open issues of a transcript in line with the findings of a new validation. */
module ValidationIssues {
  import opened Prelude

  datatype Status = Open | Resolved | Dismissed

  datatype Key = Key(code: string, segment: Option<int>)

  /** An issue row; its place in the table is its id. */
  datatype Issue = Issue(transcript: int, key: Key, status: Status)

  /** Row `i` is an open issue of transcript `t`. */
  predicate IsOpen(rows: seq<Issue>, t: int, i: nat) {
    i < |rows| && rows[i].transcript == t && rows[i].status == Open
  }

  predicate OpenWith(rows: seq<Issue>, t: int, key: Key, i: nat) {
    IsOpen(rows, t, i) && rows[i].key == key
  }

  /** The row that stands for its key among the open issues: the last one. */
  ghost predicate Stands(rows: seq<Issue>, t: int, i: nat) {
    IsOpen(rows, t, i) && forall j: nat :: i < j ==> !OpenWith(rows, t, rows[i].key, j)
  }

  ghost predicate HasOpen(rows: seq<Issue>, t: int, key: Key) {
    exists i: nat :: OpenWith(rows, t, key, i)
  }

  /** The table after reconciliation: standing rows without a finding are resolved, findings without an
      open row get one, nothing else changes. */
  ghost predicate Reconciled(rows: seq<Issue>, t: int, findings: seq<Key>, after: seq<Issue>) {
    && |rows| <= |after|
    && (forall i: nat :: i < |rows| ==>
          after[i] == if Stands(rows, t, i) && rows[i].key !in findings then rows[i].(status := Resolved) else rows[i])
    && (forall i: nat :: |rows| <= i < |after| ==>
          && after[i].transcript == t && after[i].status == Open
          && after[i].key in findings && !HasOpen(rows, t, after[i].key))
    && (forall key :: key in findings && !HasOpen(rows, t, key) ==>
          exists i: nat :: |rows| <= i < |after| && after[i].key == key)
    && (forall i: nat, j: nat :: |rows| <= i < j < |after| ==>
          after[i].key != after[j].key && FoundBefore(findings, after[i].key, after[j].key))
  }

  /** The id that the dictionary of open rows holds for each key. */
  ghost predicate IsIndex(rows: seq<Issue>, t: int, openByKey: map<Key, nat>) {
    && (forall key :: key in openByKey ==> Stands(rows, t, openByKey[key]) && rows[openByKey[key]].key == key)
    && (forall i: nat :: IsOpen(rows, t, i) ==> rows[i].key in openByKey)
  }

  /** Row `i` is to be resolved, among the keys in `handled`. */
  ghost predicate Closes(rows: seq<Issue>, t: int, findings: seq<Key>, handled: seq<Key>, i: nat) {
    Stands(rows, t, i) && rows[i].key !in findings && rows[i].key in handled
  }

  ghost predicate ClosedSoFar(rows: seq<Issue>, t: int, findings: seq<Key>, handled: seq<Key>, now: seq<Issue>) {
    && |now| == |rows|
    && forall i: nat :: i < |rows| ==>
         now[i] == if Closes(rows, t, findings, handled, i) then rows[i].(status := Resolved) else rows[i]
  }

  ghost predicate CreatedSoFar(rows: seq<Issue>, t: int, findings: seq<Key>, base: nat, now: seq<Issue>) {
    && base <= |now|
    && (forall i: nat :: base <= i < |now| ==>
          now[i].transcript == t && now[i].status == Open && now[i].key in findings && !HasOpen(rows, t, now[i].key))
    && (forall i: nat, j: nat :: base <= i < j < |now| ==>
          now[i].key != now[j].key && FoundBefore(findings, now[i].key, now[j].key))
  }

  ghost predicate CreatedFor(rows: seq<Issue>, base: nat, key: Key) {
    exists i: nat :: base <= i < |rows| && rows[i].key == key
  }

  /** Key `a` has an open row that stands before every open row of key `b`. */
  ghost predicate OpensBefore(rows: seq<Issue>, t: int, a: Key, b: Key) {
    exists i: nat :: OpenWith(rows, t, a, i) && forall j: nat :: j <= i ==> !OpenWith(rows, t, b, j)
  }

  ghost predicate InOpeningOrder(rows: seq<Issue>, t: int, keys: seq<Key>) {
    forall a, b :: 0 <= a < b < |keys| ==> OpensBefore(rows, t, keys[a], keys[b])
  }

  /** The rows are listed in the order in which their keys were first opened, none of them twice. */
  ghost predicate ListsInOrder(rows: seq<Issue>, t: int, ids: seq<nat>) {
    && (forall a :: 0 <= a < |ids| ==> ids[a] < |rows|)
    && forall a, b :: 0 <= a < b < |ids| ==> OpensBefore(rows, t, rows[ids[a]].key, rows[ids[b]].key)
  }

  /** The standing rows with a handled key, those without a finding or those with one, in order. */
  ghost predicate Lists(rows: seq<Issue>, t: int, findings: seq<Key>, handled: seq<Key>, stale: bool, ids: seq<nat>) {
    && (forall i: nat :: i in ids <==>
          Stands(rows, t, i) && rows[i].key in handled && (rows[i].key !in findings <==> stale))
    && ListsInOrder(rows, t, ids)
  }

  /** The numbers from `from` on, up to `to`. */
  predicate NumberedFrom(ids: seq<nat>, from: nat, to: nat) {
    from + |ids| == to && forall k :: 0 <= k < |ids| ==> ids[k] == from + k
  }

  /** Key `a` occurs in the findings, and key `b` not before it. */
  ghost predicate FoundBefore(findings: seq<Key>, a: Key, b: Key) {
    exists m :: 0 <= m < |findings| && findings[m] == a && b !in findings[..m]
  }

  lemma CreatedForAppend(rows: seq<Issue>, row: Issue, base: nat)
    requires base <= |rows|
    ensures forall key :: CreatedFor(rows + [row], base, key) <==> CreatedFor(rows, base, key) || key == row.key
  {
    var after := rows + [row];
    forall key
      ensures CreatedFor(after, base, key) <==> CreatedFor(rows, base, key) || key == row.key
    {
      if CreatedFor(rows, base, key) {
        var i: nat :| base <= i < |rows| && rows[i].key == key;
        assert after[i].key == key;
      }
      assert after[|rows|].key == row.key;
    }
  }

  lemma FoundEarlier(findings: seq<Key>, n: nat, a: Key, b: Key)
    requires n <= |findings| && a in findings[..n] && b !in findings[..n]
    ensures FoundBefore(findings, a, b)
  {
    var m :| 0 <= m < n && findings[..n][m] == a;
    assert findings[..m] <= findings[..n];
  }

  /** The row for finding number `n`, the first of its key, comes after those for the findings before it. */
  lemma CreatedOneMore(rows: seq<Issue>, t: int, findings: seq<Key>, base: nat, now: seq<Issue>, n: nat)
    requires CreatedSoFar(rows, t, findings, base, now)
    requires n < |findings| && findings[n] !in findings[..n] && !HasOpen(rows, t, findings[n])
    requires forall i: nat :: base <= i < |now| ==> now[i].key in findings[..n]
    ensures CreatedSoFar(rows, t, findings, base, now + [Issue(t, findings[n], Open)])
  {
    forall i: nat | base <= i < |now|
      ensures FoundBefore(findings, now[i].key, findings[n])
    {
      FoundEarlier(findings, n, now[i].key, findings[n]);
    }
  }

  class IssueTable {
    var rows: seq<Issue>

    constructor (rows: seq<Issue>)
      ensures this.rows == rows
    {
      this.rows := rows;
    }

    /** The dictionary of open rows: a later row replaces an earlier one with the same key, and the keys are in
        the order in which they first came. */
    method OpenByKey(t: int) returns (openByKey: map<Key, nat>, order: seq<Key>)
      ensures IsIndex(rows, t, openByKey)
      ensures forall key :: key in order <==> key in openByKey
      ensures InOpeningOrder(rows, t, order)
    {
      openByKey, order := map[], [];
      for n := 0 to |rows|
        invariant forall key :: key in openByKey ==>
                    openByKey[key] < n && OpenWith(rows, t, key, openByKey[key])
        invariant forall i: nat :: i < n && IsOpen(rows, t, i) ==>
                    rows[i].key in openByKey && i <= openByKey[rows[i].key]
        invariant forall key :: key in order <==> key in openByKey
        invariant InOpeningOrder(rows, t, order)
      {
        if rows[n].transcript == t && rows[n].status == Open {
          var key := rows[n].key;
          if key !in openByKey {
            forall a | 0 <= a < |order|
              ensures OpensBefore(rows, t, order[a], key)
            {
              assert OpenWith(rows, t, order[a], openByKey[order[a]]);
            }
            order := order + [key];
          }
          openByKey := openByKey[key := n];
        }
      }
    }

    /** Resolves the open rows that no finding matches. */
    method CloseStale(t: int, findings: seq<Key>, openByKey: map<Key, nat>, order: seq<Key>)
      returns (closed: seq<nat>, stillOpen: seq<nat>)
      requires IsIndex(rows, t, openByKey) && InOpeningOrder(rows, t, order)
      requires forall key :: key in order <==> key in openByKey
      modifies this
      ensures ClosedSoFar(old(rows), t, findings, order, rows)
      ensures Lists(old(rows), t, findings, order, true, closed)
      ensures Lists(old(rows), t, findings, order, false, stillOpen)
    {
      closed, stillOpen := [], [];
      for n := 0 to |order|
        invariant ClosedSoFar(old(rows), t, findings, order[..n], rows)
        invariant Lists(old(rows), t, findings, order[..n], true, closed)
        invariant Lists(old(rows), t, findings, order[..n], false, stillOpen)
      {
        var key := order[n];
        var i := openByKey[key];
        ListStep(old(rows), t, findings, order, n, i, true, closed);
        ListStep(old(rows), t, findings, order, n, i, false, stillOpen);
        CloseStep(old(rows), t, findings, order, n, i, rows);
        if key in findings {
          stillOpen := stillOpen + [i];
        } else {
          rows := rows[i := rows[i].(status := Resolved)];
          closed := closed + [i];
        }
      }
      assert order[..|order|] == order;
    }

    /** Opens an issue for each finding that no open row matches, in the order of the findings. */
    method CreateMissing(t: int, findings: seq<Key>, openByKey: map<Key, nat>, ghost before: seq<Issue>)
      returns (created: seq<nat>)
      requires forall key :: key in openByKey <==> HasOpen(before, t, key)
      modifies this
      ensures |old(rows)| <= |rows| && rows[..|old(rows)|] == old(rows)
      ensures CreatedSoFar(before, t, findings, |old(rows)|, rows)
      ensures forall key :: key in findings && key !in openByKey ==> CreatedFor(rows, |old(rows)|, key)
      ensures NumberedFrom(created, |old(rows)|, |rows|)
    {
      created := [];
      ghost var base := |rows|;
      var pending := set key | key in findings && key !in openByKey;
      for n := 0 to |findings|
        invariant base <= |rows| && rows[..base] == old(rows)
        invariant CreatedSoFar(before, t, findings, base, rows)
        invariant forall key :: key in pending ==>
                    key !in openByKey && key !in findings[..n]
                    && exists j: nat :: n <= j < |findings| && findings[j] == key
        invariant forall key :: key in findings && key !in openByKey && key !in pending ==> CreatedFor(rows, base, key)
        invariant forall i: nat :: base <= i < |rows| ==> rows[i].key in findings[..n] && rows[i].key !in pending
        invariant NumberedFrom(created, base, |rows|)
      {
        var key := findings[n];
        assert findings[..n + 1] == findings[..n] + [key];
        if key in pending {
          CreatedForAppend(rows, Issue(t, key, Open), base);
          CreatedOneMore(before, t, findings, base, rows, n);
          created := created + [|rows|];
          rows := rows + [Issue(t, key, Open)];
          pending := pending - {key};
        }
      }
    }

    method Reconcile(t: int, findings: seq<Key>) returns (closed: seq<nat>, stillOpen: seq<nat>, created: seq<nat>)
      modifies this
      ensures Reconciled(old(rows), t, findings, rows)
      ensures forall i: nat :: i in closed <==> Stands(old(rows), t, i) && old(rows)[i].key !in findings
      ensures forall i: nat :: i in stillOpen <==> Stands(old(rows), t, i) && old(rows)[i].key in findings
      ensures ListsInOrder(old(rows), t, closed) && ListsInOrder(old(rows), t, stillOpen)
      ensures NumberedFrom(created, |old(rows)|, |rows|)
    {
      var openByKey, order := OpenByKey(t);
      IndexKnowsOpen(rows, t, openByKey);
      closed, stillOpen := CloseStale(t, findings, openByKey, order);
      ghost var resolved := rows;
      created := CreateMissing(t, findings, openByKey, old(rows));
      assert forall i: nat :: i < |resolved| ==> rows[i] == rows[..|resolved|][i];
    }
  }

  lemma OneStands(rows: seq<Issue>, t: int, i: nat)
    requires Stands(rows, t, i)
    ensures forall j: nat :: Stands(rows, t, j) && rows[j].key == rows[i].key ==> j == i
  {
    forall j: nat | Stands(rows, t, j) && rows[j].key == rows[i].key
      ensures j == i
    {
      assert OpenWith(rows, t, rows[i].key, j) && OpenWith(rows, t, rows[j].key, i);
    }
  }

  lemma ListStep(rows: seq<Issue>, t: int, findings: seq<Key>, order: seq<Key>, n: nat, i: nat, stale: bool,
                 ids: seq<nat>)
    requires n < |order| && InOpeningOrder(rows, t, order)
    requires Stands(rows, t, i) && rows[i].key == order[n]
    requires Lists(rows, t, findings, order[..n], stale, ids)
    ensures Lists(rows, t, findings, order[..n + 1], stale,
                  if order[n] !in findings <==> stale then ids + [i] else ids)
  {
    OneStands(rows, t, i);
    assert order[..n + 1] == order[..n] + [order[n]];
    forall a | 0 <= a < |ids|
      ensures OpensBefore(rows, t, rows[ids[a]].key, order[n])
    {
      assert ids[a] in ids;
      var m :| 0 <= m < n && order[m] == rows[ids[a]].key;
    }
  }

  lemma CloseStep(rows: seq<Issue>, t: int, findings: seq<Key>, order: seq<Key>, n: nat, i: nat, now: seq<Issue>)
    requires n < |order| && InOpeningOrder(rows, t, order)
    requires Stands(rows, t, i) && rows[i].key == order[n]
    requires ClosedSoFar(rows, t, findings, order[..n], now)
    ensures now[i] == rows[i]
    ensures ClosedSoFar(rows, t, findings, order[..n + 1],
                        if order[n] in findings then now else now[i := now[i].(status := Resolved)])
  {
    OneStands(rows, t, i);
    assert order[..n + 1] == order[..n] + [order[n]];
    forall a | 0 <= a < n
      ensures order[a] != order[n]
    {
      assert OpensBefore(rows, t, order[a], order[n]);
    }
  }

  lemma IndexKnowsOpen(rows: seq<Issue>, t: int, openByKey: map<Key, nat>)
    requires IsIndex(rows, t, openByKey)
    ensures forall key :: key in openByKey <==> HasOpen(rows, t, key)
  {
    forall key | key in openByKey
      ensures HasOpen(rows, t, key)
    {
      assert OpenWith(rows, t, key, openByKey[key]);
    }
  }

  // ---------------------------------------------------------------------------------------------
  // What reconciliation achieves
  // ---------------------------------------------------------------------------------------------

  ghost predicate OneOpenPerKey(rows: seq<Issue>, t: int) {
    forall i: nat, j: nat :: i < j && IsOpen(rows, t, i) && IsOpen(rows, t, j) ==> rows[i].key != rows[j].key
  }

  /** Exactly one open issue for each finding key, and no other open issue. */
  ghost predicate InLine(rows: seq<Issue>, t: int, findings: seq<Key>) {
    && OneOpenPerKey(rows, t)
    && forall key :: HasOpen(rows, t, key) <==> key in findings
  }

  lemma StandingExists(rows: seq<Issue>, t: int, i: nat) returns (j: nat)
    requires IsOpen(rows, t, i)
    ensures i <= j && Stands(rows, t, j) && rows[j].key == rows[i].key
    decreases |rows| - i
  {
    if Stands(rows, t, i) {
      j := i;
    } else {
      var k: nat :| i < k && OpenWith(rows, t, rows[i].key, k);
      j := StandingExists(rows, t, k);
    }
  }

  /** Closed rows stay as they are; nothing is ever reopened. */
  lemma NeverReopens(rows: seq<Issue>, t: int, findings: seq<Key>, after: seq<Issue>, i: nat)
    requires Reconciled(rows, t, findings, after) && i < |rows|
    ensures after[i] == rows[i] || (rows[i].status == Open && after[i] == rows[i].(status := Resolved))
    ensures rows[i].transcript != t || rows[i].status != Open ==> after[i] == rows[i]
  {
  }

  lemma OpenAfter(rows: seq<Issue>, t: int, findings: seq<Key>, after: seq<Issue>, i: nat)
    requires Reconciled(rows, t, findings, after) && i < |rows|
    ensures IsOpen(after, t, i) <==> IsOpen(rows, t, i) && !(Stands(rows, t, i) && rows[i].key !in findings)
    ensures after[i].key == rows[i].key
  {
  }

  /** Every finding has an open issue afterwards. */
  lemma FindingsAreOpen(rows: seq<Issue>, t: int, findings: seq<Key>, after: seq<Issue>, key: Key)
    requires Reconciled(rows, t, findings, after) && key in findings
    ensures HasOpen(after, t, key)
  {
    if HasOpen(rows, t, key) {
      var i: nat :| OpenWith(rows, t, key, i);
      OpenAfter(rows, t, findings, after, i);
      assert OpenWith(after, t, key, i);
    } else {
      var i: nat :| |rows| <= i < |after| && after[i].key == key;
      assert OpenWith(after, t, key, i);
    }
  }

  /** Reconciliation brings the open issues in line with the findings exactly when no key was open twice
      before it. */
  lemma InLineIffOnePerKey(rows: seq<Issue>, t: int, findings: seq<Key>, after: seq<Issue>)
    requires Reconciled(rows, t, findings, after)
    ensures InLine(after, t, findings) <==> OneOpenPerKey(rows, t)
  {
    if OneOpenPerKey(rows, t) {
      OnePerKeyGivesInLine(rows, t, findings, after);
    } else {
      var i: nat, j: nat :| i < j && IsOpen(rows, t, i) && IsOpen(rows, t, j) && rows[i].key == rows[j].key;
      assert OpenWith(rows, t, rows[i].key, j);
      OpenAfter(rows, t, findings, after, i);
      OpenAfter(rows, t, findings, after, j);
      assert OpenWith(after, t, rows[i].key, i);
    }
  }

  lemma OnePerKeyGivesInLine(rows: seq<Issue>, t: int, findings: seq<Key>, after: seq<Issue>)
    requires Reconciled(rows, t, findings, after) && OneOpenPerKey(rows, t)
    ensures InLine(after, t, findings)
  {
    forall key
      ensures HasOpen(after, t, key) <==> key in findings
    {
      if key in findings {
        FindingsAreOpen(rows, t, findings, after, key);
      } else if HasOpen(after, t, key) {
        var i: nat :| OpenWith(after, t, key, i);
        StillOpenMatches(rows, t, findings, after, i);
      }
    }
    forall i: nat, j: nat | i < j && IsOpen(after, t, i) && IsOpen(after, t, j)
      ensures after[i].key != after[j].key
    {
      if i < |rows| {
        OpenAfter(rows, t, findings, after, i);
        if j < |rows| {
          OpenAfter(rows, t, findings, after, j);
        } else {
          assert OpenWith(rows, t, rows[i].key, i);
        }
      }
    }
  }

  /** With one open issue per key, whatever is open afterwards has a finding. */
  lemma StillOpenMatches(rows: seq<Issue>, t: int, findings: seq<Key>, after: seq<Issue>, i: nat)
    requires Reconciled(rows, t, findings, after) && OneOpenPerKey(rows, t)
    requires IsOpen(after, t, i)
    ensures after[i].key in findings
  {
    if i < |rows| {
      OpenAfter(rows, t, findings, after, i);
      assert Stands(rows, t, i);
    }
  }

  /** No key without a finding is open twice. */
  ghost predicate NoStaleTwice(rows: seq<Issue>, t: int, findings: seq<Key>) {
    forall i: nat, j: nat :: i < j && IsOpen(rows, t, i) && IsOpen(rows, t, j) && rows[i].key == rows[j].key
      ==> rows[i].key in findings
  }

  /** An immediate second run changes nothing exactly when no key without a finding was open twice. */
  lemma SecondRunIdle(rows: seq<Issue>, t: int, findings: seq<Key>, after: seq<Issue>, again: seq<Issue>)
    requires Reconciled(rows, t, findings, after) && Reconciled(after, t, findings, again)
    ensures again == after <==> NoStaleTwice(rows, t, findings)
  {
    NothingCreatedAgain(rows, t, findings, after, again);
    if NoStaleTwice(rows, t, findings) {
      forall i: nat | i < |after|
        ensures again[i] == after[i]
      {
        if i < |rows| {
          OpenAfter(rows, t, findings, after, i);
          assert forall j: nat :: i < j && OpenWith(rows, t, rows[i].key, j) ==> IsOpen(rows, t, j);
        }
      }
    } else {
      var i: nat, j: nat :| i < j && IsOpen(rows, t, i) && IsOpen(rows, t, j) && rows[i].key == rows[j].key
                            && rows[i].key !in findings;
      assert OpenWith(rows, t, rows[i].key, j);
      OpenAfter(rows, t, findings, after, i);
      var k := StandingExists(after, t, i);
      assert again[k].status == Resolved;
    }
  }

  lemma NothingCreatedAgain(rows: seq<Issue>, t: int, findings: seq<Key>, after: seq<Issue>, again: seq<Issue>)
    requires Reconciled(rows, t, findings, after) && Reconciled(after, t, findings, again)
    ensures |again| == |after|
  {
    if |again| > |after| {
      var n: nat := |after|;
      FindingsAreOpen(rows, t, findings, after, again[n].key);
    }
  }

  /** Two open issues with one key and no finding any more: the first run resolves only one of them, and
      every second run goes on to change the table. Storing the findings of a transcript whose metrics
      list a suspect segment twice leaves such a table. */
  lemma SharedKeyStaysOpen(t: int, key: Key, again: seq<Issue>)
    ensures var row := Issue(t, key, Open);
            var rows, after := [row, row], [row, row.(status := Resolved)];
            && Reconciled(rows, t, [], after)
            && HasOpen(after, t, key) && !InLine(after, t, [])
            && (Reconciled(after, t, [], again) ==> again != after)
  {
    var row := Issue(t, key, Open);
    var rows, after := [row, row], [row, row.(status := Resolved)];
    assert OpenWith(rows, t, key, 1) && OpenWith(after, t, key, 0);
    assert !Stands(rows, t, 0) && Stands(rows, t, 1) && Stands(after, t, 0);
    InLineIffOnePerKey(rows, t, [], after);
    assert IsOpen(rows, t, 0) && IsOpen(rows, t, 1);
  }
}

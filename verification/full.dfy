/** The exhaustive strategy: every unordered pair of session items is judged
    exactly once, and items are ranked by how many comparisons they won. Its
    only state is the list of judged comparisons. */
module Full {
  import opened Types
  import StableSort

  /** Rebuild the judged comparisons from the session blob; a blob that does
      not parse (the default empty string included) yields none. */
  function Load(blob: Option<seq<Comparison>>): (done: seq<Comparison>)
    ensures blob.None? ==> done == []
    ensures blob.Some? ==> done == blob.value
  {
    blob.GetOr([])
  }

  /** Python's `comb(n, 2)`. */
  function Choose2(n: nat): nat {
    n * (n - 1) / 2
  }

  /** The Python set `{a, b}` built from a candidate pair. */
  function PairSet(p: (Item, Item)): set<Item> {
    {p.0, p.1}
  }

  /** The pairs `(items[i], items[k])` for `k` from `j` up. */
  function Row(items: seq<Item>, i: nat, j: nat): seq<(Item, Item)>
    requires i < |items| && j <= |items|
    decreases |items| - j
  {
    if j == |items| then [] else [(items[i], items[j])] + Row(items, i, j + 1)
  }

  /** The pairs `(items[i], items[j])` with `i0 <= i < j`, in `(i, j)` order. */
  function PairsFrom(items: seq<Item>, i0: nat): seq<(Item, Item)>
    requires i0 <= |items|
    decreases |items| - i0
  {
    if i0 == |items| then [] else Row(items, i0, i0 + 1) + PairsFrom(items, i0 + 1)
  }

  function AllPairs(items: seq<Item>): seq<(Item, Item)> {
    PairsFrom(items, 0)
  }

  /** The candidates whose unordered pair has not been judged, in order. */
  function Unfinished(ps: seq<(Item, Item)>, done: seq<Comparison>): seq<(Item, Item)> {
    if |ps| == 0 then []
    else (if Finished(PairSet(ps[0]), done) then [] else [ps[0]]) + Unfinished(ps[1..], done)
  }

  /** The reference definition of `get_pending_comparisons`. */
  function Pending(items: seq<Item>, done: seq<Comparison>): (r: seq<(Item, Item)>)
    ensures forall k :: 0 <= k < |r| ==> r[k] in AllPairs(items) && !Finished(PairSet(r[k]), done)
  {
    UnfinishedMembers(AllPairs(items), done);
    Unfinished(AllPairs(items), done)
  }

  /** The unordered pair `s` is one of the pending ones. */
  predicate InPending(items: seq<Item>, done: seq<Comparison>, s: set<Item>) {
    var pending := Pending(items, done);
    exists k :: 0 <= k < |pending| && PairSet(pending[k]) == s
  }

  // ---------------------------------------------------------------------
  // Facts about the pending list
  // ---------------------------------------------------------------------

  lemma {:induction false} UnfinishedConcat(a: seq<(Item, Item)>, b: seq<(Item, Item)>,
                                            done: seq<Comparison>)
    ensures Unfinished(a + b, done) == Unfinished(a, done) + Unfinished(b, done)
  {
    if |a| > 0 {
      assert (a + b)[0] == a[0] && (a + b)[1..] == a[1..] + b;
      UnfinishedConcat(a[1..], b, done);
    } else {
      assert a + b == b;
    }
  }

  lemma {:induction false} UnfinishedMembers(ps: seq<(Item, Item)>, done: seq<Comparison>)
    ensures forall p :: p in Unfinished(ps, done) <==> p in ps && !Finished(PairSet(p), done)
  {
    if |ps| > 0 {
      UnfinishedMembers(ps[1..], done);
      assert ps == [ps[0]] + ps[1..];
    }
  }

  lemma {:induction false} RowMembers(items: seq<Item>, i: nat, j: nat)
    requires i < |items| && j <= |items|
    ensures forall p :: p in Row(items, i, j) <==>
              exists k :: j <= k < |items| && p == (items[i], items[k])
    decreases |items| - j
  {
    if j < |items| {
      RowMembers(items, i, j + 1);
    }
  }

  lemma {:induction false} PairsFromMembers(items: seq<Item>, i0: nat)
    requires i0 <= |items|
    ensures forall p :: p in PairsFrom(items, i0) <==>
              exists i, j :: i0 <= i < j < |items| && p == (items[i], items[j])
    decreases |items| - i0
  {
    if i0 < |items| {
      var row, rest := Row(items, i0, i0 + 1), PairsFrom(items, i0 + 1);
      assert PairsFrom(items, i0) == row + rest;
      RowMembers(items, i0, i0 + 1);
      PairsFromMembers(items, i0 + 1);
      forall p | p in row + rest
        ensures exists i, j :: i0 <= i < j < |items| && p == (items[i], items[j])
      {
        if p in row {
          var k :| i0 + 1 <= k < |items| && p == (items[i0], items[k]);
        } else {
          assert p in rest;
          var i, j :| i0 + 1 <= i < j < |items| && p == (items[i], items[j]);
        }
      }
      forall p | (exists i, j :: i0 <= i < j < |items| && p == (items[i], items[j]))
        ensures p in row + rest
      {
        var i, j :| i0 <= i < j < |items| && p == (items[i], items[j]);
        if i == i0 {
          assert p in row;
        } else {
          assert p in rest;
        }
      }
    }
  }

  /** The pending list holds exactly the pairs `(items[i], items[j])`, `i < j`,
      whose unordered pair has not been judged. */
  lemma PendingMembers(items: seq<Item>, done: seq<Comparison>, p: (Item, Item))
    ensures p in Pending(items, done) <==>
              && (exists i, j :: 0 <= i < j < |items| && p == (items[i], items[j]))
              && !Finished(PairSet(p), done)
  {
    UnfinishedMembers(AllPairs(items), done);
    PairsFromMembers(items, 0);
  }

  // ---------------------------------------------------------------------
  // The operations
  // ---------------------------------------------------------------------

  /** `get_pending_comparisons`: the nested loop over `i < j`. */
  method GetPendingComparisons(items: seq<Item>, done: seq<Comparison>)
    returns (pending: seq<(Item, Item)>)
    ensures pending == Pending(items, done)
  {
    ghost var goal := Pending(items, done);
    pending := [];
    var i := 0;
    while i < |items|
      invariant 0 <= i <= |items|
      invariant pending + Unfinished(PairsFrom(items, i), done) == goal
    {
      ghost var rest := Unfinished(PairsFrom(items, i + 1), done);
      RowsThenRest(items, i, done);
      var j := i + 1;
      while j < |items|
        invariant i + 1 <= j <= |items|
        invariant pending + Unfinished(Row(items, i, j), done) + rest == goal
      {
        var combination := (items[i], items[j]);
        ghost var later := Unfinished(Row(items, i, j + 1), done);
        RowStep(items, i, j, done);
        if !Finished(PairSet(combination), done) {
          assert pending + Unfinished(Row(items, i, j), done) + rest
                 == (pending + [combination]) + later + rest;
          pending := pending + [combination];
        } else {
          assert Unfinished(Row(items, i, j), done) == later;
        }
        j := j + 1;
      }
      assert Row(items, i, j) == [];
      i := i + 1;
    }
  }

  /** The pending pairs from row `i` on are those of row `i`, then the rest. */
  lemma RowsThenRest(items: seq<Item>, i: nat, done: seq<Comparison>)
    requires i < |items|
    ensures Unfinished(PairsFrom(items, i), done)
            == Unfinished(Row(items, i, i + 1), done) + Unfinished(PairsFrom(items, i + 1), done)
  {
    UnfinishedConcat(Row(items, i, i + 1), PairsFrom(items, i + 1), done);
  }

  /** One step of the inner loop: the row from `j` is the pair at `j`, kept
      when unjudged, followed by the row from `j + 1`. */
  lemma RowStep(items: seq<Item>, i: nat, j: nat, done: seq<Comparison>)
    requires i < j < |items|
    ensures Unfinished(Row(items, i, j), done)
            == (if Finished(PairSet((items[i], items[j])), done) then [] else [(items[i], items[j])])
               + Unfinished(Row(items, i, j + 1), done)
  {
    var p := (items[i], items[j]);
    assert Row(items, i, j) == [p] + Row(items, i, j + 1);
    UnfinishedConcat([p], Row(items, i, j + 1), done);
    assert [p][1..] == [];
  }

  /** `get_pending_comparison_count`: `comb(n, 2)` less the judged count. */
  function PendingCount(items: seq<Item>, done: seq<Comparison>): (r: int)
    ensures Valid(items, done) ==> r == |Pending(items, done)|
  {
    assert Valid(items, done) ==> Choose2(|items|) - |done| == |Pending(items, done)| by {
      if Valid(items, done) {
        PendingCountMatches(items, done);
      }
    }
    Choose2(|items|) - |done|
  }

  /** `get_next_comparison`: one pending pair, chosen by `pick` (standing for
      `random.choice`), listed in either order (standing for the iteration
      order of a Python set). */
  function NextPair(items: seq<Item>, done: seq<Comparison>, pick: nat, swap: bool)
    : (r: Option<seq<Item>>)
    ensures r.None? <==> |Pending(items, done)| == 0
    ensures r.Some? ==> 1 <= |r.value| <= 2 && InPending(items, done, ItemSet(r.value))
    ensures r.Some? && |r.value| == 2 ==> r.value[0] != r.value[1]
  {
    var pending := Pending(items, done);
    if |pending| == 0 then None
    else
      var p := pending[pick % |pending|];
      if p.0 == p.1 then
        // `list({a, a})` is `[a]`: a repeated session item collapses
        assert ItemSet([p.0]) == PairSet(p);
        Some([p.0])
      else
        assert ItemSet([p.0, p.1]) == PairSet(p) && ItemSet([p.1, p.0]) == PairSet(p);
        Some(if swap then [p.1, p.0] else [p.0, p.1])
  }

  /** With distinct session items every pending pair is a genuine pair, so
      the next comparison always shows two different items. */
  lemma NextPairOfDistinct(items: seq<Item>, done: seq<Comparison>, pick: nat, swap: bool)
    requires Distinct(items) && NextPair(items, done, pick, swap).Some?
    ensures |NextPair(items, done, pick, swap).value| == 2
  {
    var pending := Pending(items, done);
    var p := pending[pick % |pending|];
    assert p in pending;
    PendingMembers(items, done, p);
    var i, j :| 0 <= i < j < |items| && p == (items[i], items[j]);
  }

  /** `save_comparison`: the three checks in order, then the append. */
  function Save(items: seq<Item>, done: seq<Comparison>, c: Comparison)
    : (r: Result<seq<Comparison>, SaveError>)
    ensures Judged(c, done) ==> r == Err(DuplicateComparison)
    ensures !Judged(c, done) && !InPending(items, done, ItemSet(c.items)) ==> r == Err(InvalidPair)
    ensures (!Judged(c, done) && InPending(items, done, ItemSet(c.items))
             && !(0 <= c.winner < |c.items|)) ==> r == Err(WinnerOutOfRange)
    ensures (!Judged(c, done) && InPending(items, done, ItemSet(c.items))
             && 0 <= c.winner < |c.items|) ==> r == Ok(done + [c])
    ensures r.Ok? ==> r.value == done + [c] && 0 <= c.winner < |c.items|
  {
    if Judged(c, done) then Err(DuplicateComparison)
    else if !InPending(items, done, ItemSet(c.items)) then Err(InvalidPair)
    else if c.winner < 0 || c.winner > |c.items| - 1 then Err(WinnerOutOfRange)
    else Ok(done + [c])
  }

  function WinnerOf(c: Comparison): Item
    requires 0 <= c.winner < |c.items|
  {
    c.items[c.winner]
  }

  /** Every comparison names a valid winner that is one of the session items. */
  ghost predicate WinnersKnown(items: seq<Item>, done: seq<Comparison>) {
    forall k :: 0 <= k < |done| ==> 0 <= done[k].winner < |done[k].items|
                                    && done[k].items[done[k].winner] in items
  }

  /** How many comparisons the item called `name` won. */
  function Wins(name: string, done: seq<Comparison>): (r: nat)
    requires forall k :: 0 <= k < |done| ==> 0 <= done[k].winner < |done[k].items|
    ensures r <= |done|
    ensures r == 0 <==> forall k :: 0 <= k < |done| ==> WinnerOf(done[k]).name != name
  {
    if |done| == 0 then 0
    else Wins(name, done[..|done| - 1]) + (if WinnerOf(done[|done| - 1]).name == name then 1 else 0)
  }

  /** The tally dictionary, in the items' order, every item starting from 0. */
  function Tally(items: seq<Item>, done: seq<Comparison>): (r: seq<(string, int)>)
    requires forall k :: 0 <= k < |done| ==> 0 <= done[k].winner < |done[k].items|
    ensures |r| == |items|
    ensures forall k :: 0 <= k < |r| ==> r[k].0 == items[k].name
  {
    if |items| == 0 then []
    else [(items[0].name, Wins(items[0].name, done) as int)] + Tally(items[1..], done)
  }

  /** `get_results`: the tally, stably sorted by wins, most first. A winner
      outside the session items would raise KeyError, so none is allowed;
      duplicate names would merge dictionary entries, so none are allowed. */
  function Results(items: seq<Item>, done: seq<Comparison>): (r: seq<(string, int)>)
    requires Distinct(items) && WinnersKnown(items, done)
    ensures |r| == |items|
    ensures StableSort.NonIncreasing(r)
    ensures multiset(r) == multiset(Tally(items, done))
  {
    StableSort.SortDesc(Tally(items, done))
  }

  // ---------------------------------------------------------------------
  // The invariant: judged comparisons are distinct pairs of session items
  // ---------------------------------------------------------------------

  /** A comparison that `save_comparison` could have accepted for `items`. */
  ghost predicate ValidComparison(items: seq<Item>, c: Comparison) {
    && 0 <= c.winner < |c.items|
    && exists i, j :: 0 <= i < j < |items| && ItemSet(c.items) == {items[i], items[j]}
  }

  ghost predicate Valid(items: seq<Item>, done: seq<Comparison>) {
    && Distinct(items)
    && DistinctPairs(done)
    && forall k :: 0 <= k < |done| ==> ValidComparison(items, done[k])
  }

  /** A fresh session (or an unparseable blob) starts valid. */
  lemma LoadValid(items: seq<Item>)
    requires Distinct(items)
    ensures Valid(items, Load(None))
  {
  }

  /** The pair of a pending entry is a pair of session items. */
  lemma PendingPair(items: seq<Item>, done: seq<Comparison>, s: set<Item>)
    requires InPending(items, done, s)
    ensures !Finished(s, done)
    ensures exists i, j :: 0 <= i < j < |items| && s == {items[i], items[j]}
  {
    var pending := Pending(items, done);
    var k :| 0 <= k < |pending| && PairSet(pending[k]) == s;
    PendingMembers(items, done, pending[k]);
  }

  /** Every successful save keeps the invariant. */
  lemma SavePreservesValid(items: seq<Item>, done: seq<Comparison>, c: Comparison)
    requires Valid(items, done) && Save(items, done, c).Ok?
    ensures Valid(items, Save(items, done, c).value)
  {
    PendingPair(items, done, ItemSet(c.items));
    AppendUnjudged(done, c);
    var done' := done + [c];
    forall k | 0 <= k < |done'|
      ensures ValidComparison(items, done'[k])
    {
      if k < |done| {
        assert done'[k] == done[k];
      }
    }
  }

  /** Under the invariant, every winner is a session item. */
  lemma ValidWinnersKnown(items: seq<Item>, done: seq<Comparison>)
    requires Valid(items, done)
    ensures WinnersKnown(items, done)
  {
    forall k | 0 <= k < |done|
      ensures done[k].items[done[k].winner] in items
    {
      var c := done[k];
      var i, j :| 0 <= i < j < |items| && ItemSet(c.items) == {items[i], items[j]};
      assert c.items[c.winner] in ItemSet(c.items);
    }
  }

  // ---------------------------------------------------------------------
  // Counting pending pairs
  // ---------------------------------------------------------------------

  /** No two candidates stand for the same unordered pair. */
  ghost predicate DistinctSets(ps: seq<(Item, Item)>) {
    forall i, j :: 0 <= i < j < |ps| ==> PairSet(ps[i]) != PairSet(ps[j])
  }

  /** The number of candidates that stand for the unordered pair `s`. */
  function Occurrences(ps: seq<(Item, Item)>, s: set<Item>): nat {
    if |ps| == 0 then 0
    else (if PairSet(ps[0]) == s then 1 else 0) + Occurrences(ps[1..], s)
  }

  lemma {:induction false} RowIndex(items: seq<Item>, i: nat, j: nat)
    requires i < |items| && j <= |items|
    ensures |Row(items, i, j)| == |items| - j
    ensures forall k :: 0 <= k < |items| - j ==> Row(items, i, j)[k] == (items[i], items[j + k])
    decreases |items| - j
  {
    if j < |items| {
      RowIndex(items, i, j + 1);
      var rest := Row(items, i, j + 1);
      assert Row(items, i, j) == [(items[i], items[j])] + rest;
      forall k | 0 < k < |items| - j
        ensures Row(items, i, j)[k] == (items[i], items[j + k])
      {
        assert Row(items, i, j)[k] == rest[k - 1];
      }
    }
  }

  lemma Choose2Step(m: nat)
    ensures Choose2(m + 1) == m + Choose2(m)
  {
    assert (m + 1) * m == m * (m - 1) + 2 * m;
  }

  lemma PairsFromUnfold(items: seq<Item>, i0: nat)
    requires i0 < |items|
    ensures |PairsFrom(items, i0)| == |items| - i0 - 1 + |PairsFrom(items, i0 + 1)|
  {
    RowIndex(items, i0, i0 + 1);
  }

  lemma {:induction false} PairsFromLength(items: seq<Item>, i0: nat)
    requires i0 <= |items|
    ensures |PairsFrom(items, i0)| == Choose2(|items| - i0)
    decreases |items| - i0
  {
    if i0 < |items| {
      var m := |items| - i0 - 1;
      PairsFromUnfold(items, i0);
      PairsFromLength(items, i0 + 1);
      Choose2Step(m);
    }
  }

  lemma DistinctSetsConcat(a: seq<(Item, Item)>, b: seq<(Item, Item)>)
    requires DistinctSets(a) && DistinctSets(b)
    requires forall x, y :: x in a && y in b ==> PairSet(x) != PairSet(y)
    ensures DistinctSets(a + b)
  {
    forall i, j | 0 <= i < j < |a + b|
      ensures PairSet((a + b)[i]) != PairSet((a + b)[j])
    {
      if j < |a| {
        assert (a + b)[i] == a[i] && (a + b)[j] == a[j];
      } else if i < |a| {
        assert (a + b)[i] == a[i] && (a + b)[j] == b[j - |a|];
      } else {
        assert (a + b)[i] == b[i - |a|] && (a + b)[j] == b[j - |a|];
      }
    }
  }

  lemma RowDistinct(items: seq<Item>, i: nat)
    requires Distinct(items) && i < |items|
    ensures DistinctSets(Row(items, i, i + 1))
  {
    var row := Row(items, i, i + 1);
    RowIndex(items, i, i + 1);
    forall k1, k2 | 0 <= k1 < k2 < |row|
      ensures PairSet(row[k1]) != PairSet(row[k2])
    {
      assert row[k1] == (items[i], items[i + 1 + k1]);
      assert row[k2] == (items[i], items[i + 1 + k2]);
      assert items[i + 1 + k1] !in PairSet(row[k2]);
    }
  }

  /** With distinct items, no two candidate pairs coincide as sets. */
  lemma {:induction false} PairsFromDistinct(items: seq<Item>, i0: nat)
    requires Distinct(items) && i0 <= |items|
    ensures DistinctSets(PairsFrom(items, i0))
    decreases |items| - i0
  {
    if i0 < |items| {
      var row, rest := Row(items, i0, i0 + 1), PairsFrom(items, i0 + 1);
      RowDistinct(items, i0);
      PairsFromDistinct(items, i0 + 1);
      RowMembers(items, i0, i0 + 1);
      PairsFromMembers(items, i0 + 1);
      forall x, y | x in row && y in rest
        ensures PairSet(x) != PairSet(y)
      {
        var i, j :| i0 + 1 <= i < j < |items| && y == (items[i], items[j]);
        assert items[i0] in PairSet(x);
        assert items[i0] != items[i] && items[i0] != items[j];
      }
      DistinctSetsConcat(row, rest);
    }
  }

  lemma {:induction false} OccursOnce(ps: seq<(Item, Item)>, s: set<Item>)
    requires DistinctSets(ps)
    requires exists k :: 0 <= k < |ps| && PairSet(ps[k]) == s
    ensures Occurrences(ps, s) == 1
  {
    if PairSet(ps[0]) == s {
      OccursNever(ps[1..], s);
    } else {
      var k :| 0 <= k < |ps| && PairSet(ps[k]) == s;
      assert ps[1..][k - 1] == ps[k];
      OccursOnce(ps[1..], s);
    }
  }

  lemma {:induction false} OccursNever(ps: seq<(Item, Item)>, s: set<Item>)
    requires forall k :: 0 <= k < |ps| ==> PairSet(ps[k]) != s
    ensures Occurrences(ps, s) == 0
  {
    if |ps| > 0 {
      OccursNever(ps[1..], s);
    }
  }

  lemma FinishedAppend(s: set<Item>, done: seq<Comparison>, c: Comparison)
    ensures Finished(s, done + [c]) <==> Finished(s, done) || ItemSet(c.items) == s
  {
    var done' := done + [c];
    if Finished(s, done) {
      var k :| 0 <= k < |done| && ItemSet(done[k].items) == s;
      assert done'[k] == done[k];
    }
    if Finished(s, done') {
      var k :| 0 <= k < |done'| && ItemSet(done'[k].items) == s;
      if k < |done| {
        assert done'[k] == done[k];
      }
    }
    assert done'[|done|] == c;
  }

  /** Judging a fresh pair removes from the candidates exactly its occurrences. */
  lemma {:induction false} UnfinishedStep(ps: seq<(Item, Item)>, done: seq<Comparison>, c: Comparison)
    requires !Judged(c, done)
    ensures |Unfinished(ps, done + [c])| == |Unfinished(ps, done)| - Occurrences(ps, ItemSet(c.items))
  {
    if |ps| > 0 {
      FinishedAppend(PairSet(ps[0]), done, c);
      UnfinishedStep(ps[1..], done, c);
    }
  }

  /** The count of pending pairs `get_pending_comparison_count` reports is the
      length of the list `get_pending_comparisons` builds, for every valid state. */
  lemma {:induction false} PendingCountMatches(items: seq<Item>, done: seq<Comparison>)
    requires Valid(items, done)
    ensures |Pending(items, done)| == Choose2(|items|) - |done|
    decreases |done|
  {
    var ps := AllPairs(items);
    if |done| == 0 {
      PairsFromLength(items, 0);
      assert Unfinished(ps, []) == ps by {
        UnfinishedMembersEmpty(ps);
      }
    } else {
      var done0, c := done[..|done| - 1], done[|done| - 1];
      assert done == done0 + [c];
      ValidPrefix(items, done0, c);
      PendingCountMatches(items, done0);
      UnfinishedStep(ps, done0, c);
      var i, j :| 0 <= i < j < |items| && ItemSet(c.items) == {items[i], items[j]};
      PairsFromMembers(items, 0);
      PairsFromDistinct(items, 0);
      var p := (items[i], items[j]);
      assert p in ps;
      var k :| 0 <= k < |ps| && ps[k] == p;
      assert PairSet(ps[k]) == ItemSet(c.items);
      OccursOnce(ps, ItemSet(c.items));
    }
  }

  lemma {:induction false} UnfinishedMembersEmpty(ps: seq<(Item, Item)>)
    ensures Unfinished(ps, []) == ps
  {
    if |ps| > 0 {
      UnfinishedMembersEmpty(ps[1..]);
      assert ps == [ps[0]] + ps[1..];
    }
  }

  lemma ValidPrefix(items: seq<Item>, done: seq<Comparison>, c: Comparison)
    requires Valid(items, done + [c])
    ensures Valid(items, done) && !Judged(c, done) && ValidComparison(items, c)
  {
    var done' := done + [c];
    assert done'[|done|] == c;
    forall k | 0 <= k < |done|
      ensures ValidComparison(items, done[k])
    {
      assert done'[k] == done[k];
    }
    forall i, j | 0 <= i < j < |done|
      ensures ItemSet(done[i].items) != ItemSet(done[j].items)
    {
      assert done'[i] == done[i] && done'[j] == done[j];
    }
    forall k | 0 <= k < |done|
      ensures ItemSet(done[k].items) != ItemSet(c.items)
    {
      assert done'[k] == done[k];
    }
  }

  // ---------------------------------------------------------------------
  // Saving and finishing
  // ---------------------------------------------------------------------

  /** A successful save takes exactly the submitted pair off the pending list:
      every other pending pair stays, and the list is one shorter. */
  lemma SaveRemovesPair(items: seq<Item>, done: seq<Comparison>, c: Comparison)
    requires Valid(items, done) && Save(items, done, c).Ok?
    ensures forall p :: p in Pending(items, Save(items, done, c).value) <==>
                        p in Pending(items, done) && PairSet(p) != ItemSet(c.items)
    ensures !InPending(items, Save(items, done, c).value, ItemSet(c.items))
    ensures |Pending(items, Save(items, done, c).value)| == |Pending(items, done)| - 1
  {
    var done' := done + [c];
    forall p
      ensures p in Pending(items, done') <==> p in Pending(items, done) && PairSet(p) != ItemSet(c.items)
    {
      PendingMembers(items, done', p);
      PendingMembers(items, done, p);
      FinishedAppend(PairSet(p), done, c);
    }
    if InPending(items, done', ItemSet(c.items)) {
      PendingPair(items, done', ItemSet(c.items));
      FinishedAppend(ItemSet(c.items), done, c);
    }
    SavePreservesValid(items, done, c);
    PendingCountMatches(items, done);
    PendingCountMatches(items, done');
  }

  /** A valid state never holds more comparisons than there are pairs, and
      the next pair is None exactly when all `comb(n, 2)` pairs are judged;
      the pending count is then 0. */
  lemma CompletionIff(items: seq<Item>, done: seq<Comparison>, pick: nat, swap: bool)
    requires Valid(items, done)
    ensures |done| <= Choose2(|items|)
    ensures NextPair(items, done, pick, swap).None? <==> |done| == Choose2(|items|)
    ensures NextPair(items, done, pick, swap).None? <==> PendingCount(items, done) == 0
  {
    PendingCountMatches(items, done);
  }

  /** Whatever order the next pair is shown in, judging it with any index
      of the list shown as the winner is accepted. */
  lemma NextPairAccepted(items: seq<Item>, done: seq<Comparison>, pick: nat, swap: bool, winner: int)
    requires NextPair(items, done, pick, swap).Some?
    requires 0 <= winner < |NextPair(items, done, pick, swap).value|
    ensures Save(items, done, Comparison(NextPair(items, done, pick, swap).value, winner))
            == Ok(done + [Comparison(NextPair(items, done, pick, swap).value, winner)])
  {
    var pair := NextPair(items, done, pick, swap).value;
    PendingPair(items, done, ItemSet(pair));
  }

  // ---------------------------------------------------------------------
  // Results
  // ---------------------------------------------------------------------

  lemma {:induction false} TallyIndex(items: seq<Item>, done: seq<Comparison>)
    requires forall k :: 0 <= k < |done| ==> 0 <= done[k].winner < |done[k].items|
    ensures |Tally(items, done)| == |items|
    ensures forall k :: 0 <= k < |items| ==>
              Tally(items, done)[k] == (items[k].name, Wins(items[k].name, done) as int)
  {
    if |items| > 0 {
      TallyIndex(items[1..], done);
    }
  }

  /** One more comparison adds one win to the tally of every session item
      equal to its winner. */
  lemma {:induction false} TallyTotalStep(items: seq<Item>, done: seq<Comparison>, c: Comparison)
    requires forall k :: 0 <= k < |done| ==> 0 <= done[k].winner < |done[k].items|
    requires 0 <= c.winner < |c.items|
    ensures forall k :: 0 <= k < |done + [c]| ==> 0 <= (done + [c])[k].winner < |(done + [c])[k].items|
    ensures StableSort.Total(Tally(items, done + [c])) == StableSort.Total(Tally(items, done)) + multiset(items)[WinnerOf(c)]
  {
    var done' := done + [c];
    assert done'[..|done|] == done;
    if |items| > 0 {
      TallyTotalStep(items[1..], done, c);
      assert items == [items[0]] + items[1..];
      assert Wins(items[0].name, done') == Wins(items[0].name, done)
                                          + (if WinnerOf(c) == items[0] then 1 else 0);
    }
  }

  /** The win counts add up to the number of comparisons. */
  lemma {:induction false} TallyTotal(items: seq<Item>, done: seq<Comparison>)
    requires Distinct(items) && WinnersKnown(items, done)
    ensures StableSort.Total(Tally(items, done)) == |done|
    decreases |done|
  {
    if |done| == 0 {
      TallyZero(items);
    } else {
      var done0, c := done[..|done| - 1], done[|done| - 1];
      assert done == done0 + [c];
      assert WinnersKnown(items, done0) by {
        forall k | 0 <= k < |done0| ensures done0[k] == done[k] { }
      }
      TallyTotal(items, done0);
      TallyTotalStep(items, done0, c);
      DistinctAtMostOnce(items, WinnerOf(c));
      assert WinnerOf(c) in multiset(items);
    }
  }

  lemma {:induction false} TallyZero(items: seq<Item>)
    ensures StableSort.Total(Tally(items, [])) == 0
  {
    if |items| > 0 {
      TallyZero(items[1..]);
    }
  }

  /** `get_results` lists every session item once with its win count, the
      counts add up to the number of comparisons, larger counts come first,
      and items with equal counts keep the order of the session's items. */
  lemma ResultsProperties(items: seq<Item>, done: seq<Comparison>)
    requires Distinct(items) && WinnersKnown(items, done)
    ensures |Results(items, done)| == |items|
    ensures forall k :: 0 <= k < |items| ==>
              (items[k].name, Wins(items[k].name, done) as int) in Results(items, done)
    ensures forall e :: e in Results(items, done) ==>
              exists k :: 0 <= k < |items| && e == (items[k].name, Wins(items[k].name, done) as int)
    ensures StableSort.Total(Results(items, done)) == |done|
    ensures StableSort.NonIncreasing(Results(items, done))
    ensures forall v :: StableSort.WithKey(Results(items, done), v) == StableSort.WithKey(Tally(items, done), v)
  {
    var t := Tally(items, done);
    var r := Results(items, done);
    TallyIndex(items, done);
    TallyTotal(items, done);
    forall k | 0 <= k < |items|
      ensures t[k] in r
    {
      assert t[k] in multiset(t);
    }
    forall e | e in r
      ensures exists k :: 0 <= k < |items| && e == t[k]
    {
      assert e in multiset(r);
      assert e in t;
    }
  }

  /** In a fresh session every item is listed with 0 wins, in session order. */
  lemma ResultsOfFresh(items: seq<Item>)
    requires Distinct(items)
    ensures |Results(items, Load(None))| == |items|
    ensures forall k :: 0 <= k < |items| ==> Results(items, Load(None))[k] == (items[k].name, 0)
  {
    TallyIndex(items, []);
    var t := Tally(items, []);
    var r := Results(items, []);
    AllKey(t, 0);
    forall k | 0 <= k < |r|
      ensures r[k].1 == 0
    {
      assert r[k] in multiset(t);
    }
    AllKey(r, 0);
    assert r == t;
  }

  /** A sequence all of whose counts are `v` is its own `WithKey(_, v)`. */
  lemma {:induction false} AllKey(s: seq<(string, int)>, v: int)
    ensures (forall k :: 0 <= k < |s| ==> s[k].1 == v) <==> StableSort.WithKey(s, v) == s
  {
    if |s| > 0 {
      AllKey(s[1..], v);
      assert s == [s[0]] + s[1..];
      if s[0].1 != v {
        WithKeyShorter(s[1..], v);
      }
    }
  }

  lemma {:induction false} WithKeyShorter(s: seq<(string, int)>, v: int)
    ensures |StableSort.WithKey(s, v)| <= |s|
  {
    if |s| > 0 {
      WithKeyShorter(s[1..], v);
    }
  }

  // ---------------------------------------------------------------------
  // Concrete sessions
  // ---------------------------------------------------------------------

  /** Three items judged in a cycle (A over B, C over A, B over C): each wins
      once, so the tie keeps the session order. */
  lemma CycleScenario()
    ensures Results([Item("A"), Item("B"), Item("C")],
                    [Comparison([Item("A"), Item("B")], 0),
                     Comparison([Item("C"), Item("A")], 0),
                     Comparison([Item("B"), Item("C")], 0)])
            == [("A", 1), ("B", 1), ("C", 1)]
  {
    var items := [Item("A"), Item("B"), Item("C")];
    var done := [Comparison([Item("A"), Item("B")], 0),
                 Comparison([Item("C"), Item("A")], 0),
                 Comparison([Item("B"), Item("C")], 0)];
    var t := [("A", 1), ("B", 1), ("C", 1)];
    WinsOfThree("A", done);
    WinsOfThree("B", done);
    WinsOfThree("C", done);
    TallyOfThree(items, done, 1, 1, 1);
    assert StableSort.InsertDesc(("C", 1), []) == [("C", 1)];
    assert StableSort.InsertDesc(("B", 1), [("C", 1)]) == [("B", 1), ("C", 1)];
    assert t[1..] == [("B", 1), ("C", 1)] && t[1..][1..] == [("C", 1)];
    assert StableSort.SortDesc(t[1..][1..]) == [("C", 1)];
    assert StableSort.SortDesc(t[1..]) == [("B", 1), ("C", 1)];
    assert StableSort.SortDesc(t) == [("A", 1), ("B", 1), ("C", 1)];
  }

  /** B beats A, A beats C, B beats C: B first with 2 wins, then A, then C. */
  lemma ChainScenario()
    ensures Results([Item("A"), Item("B"), Item("C")],
                    [Comparison([Item("A"), Item("B")], 1),
                     Comparison([Item("A"), Item("C")], 0),
                     Comparison([Item("B"), Item("C")], 0)])
            == [("B", 2), ("A", 1), ("C", 0)]
  {
    var items := [Item("A"), Item("B"), Item("C")];
    var done := [Comparison([Item("A"), Item("B")], 1),
                 Comparison([Item("A"), Item("C")], 0),
                 Comparison([Item("B"), Item("C")], 0)];
    var t := [("A", 1), ("B", 2), ("C", 0)];
    WinsOfThree("A", done);
    WinsOfThree("B", done);
    WinsOfThree("C", done);
    TallyOfThree(items, done, 1, 2, 0);
    assert StableSort.InsertDesc(("C", 0), []) == [("C", 0)];
    assert StableSort.InsertDesc(("B", 2), [("C", 0)]) == [("B", 2), ("C", 0)];
    assert StableSort.InsertDesc(("A", 1), [("C", 0)]) == [("A", 1), ("C", 0)];
    assert StableSort.InsertDesc(("A", 1), [("B", 2), ("C", 0)]) == [("B", 2), ("A", 1), ("C", 0)];
    assert t[1..] == [("B", 2), ("C", 0)] && t[1..][1..] == [("C", 0)];
    assert StableSort.SortDesc(t[1..][1..]) == [("C", 0)];
    assert StableSort.SortDesc(t[1..]) == [("B", 2), ("C", 0)];
    assert StableSort.SortDesc(t) == [("B", 2), ("A", 1), ("C", 0)];
  }

  /** With a repeated item name the count and the list disagree: in session
      `[a, a, b]` the first save of `{a, b}` is accepted and takes both
      candidates `(a, b)` off the list, leaving one pending pair while
      `comb(3, 2) - 1` reports two. */
  lemma RepeatedNamesMiscount()
    ensures var a, b := Item("a"), Item("b");
            var c := Comparison([a, b], 0);
            && Save([a, a, b], [], c) == Ok([c])
            && Pending([a, a, b], [c]) == [(a, a)]
            && PendingCount([a, a, b], [c]) == 2
  {
    var a, b := Item("a"), Item("b");
    var items, c := [a, a, b], Comparison([a, b], 0);
    var ps := [(a, a), (a, b), (a, b)];
    assert Row(items, 0, 2) == [(a, b)] + Row(items, 0, 3);
    assert Row(items, 0, 1) == [(a, a)] + Row(items, 0, 2);
    assert Row(items, 1, 2) == [(a, b)] + Row(items, 1, 3);
    assert PairsFrom(items, 2) == Row(items, 2, 3) + PairsFrom(items, 3) == [];
    assert PairsFrom(items, 1) == Row(items, 1, 2) + PairsFrom(items, 2);
    assert PairsFrom(items, 0) == Row(items, 0, 1) + PairsFrom(items, 1);
    assert AllPairs(items) == ps;
    var pab, paa := ItemSet(c.items), ItemSet([a]);
    assert pab == {a, b} by {
      forall x ensures x in pab <==> x in {a, b} { assert x in c.items <==> x == a || x == b; }
    }
    assert PairSet(ps[0]) == {a} && PairSet(ps[1]) == pab && PairSet(ps[2]) == pab;
    assert ItemSet([c][0].items) == pab;
    assert {a} != pab by { assert b in pab; }
    assert Finished(pab, [c]);
    assert !Finished({a}, [c]);
    assert ps[1..] == [(a, b), (a, b)] && ps[1..][1..] == [(a, b)] && ps[1..][1..][1..] == [];
    assert Unfinished(ps[1..][1..][1..], []) == [];
    assert Unfinished(ps[1..][1..], []) == [(a, b)];
    assert Unfinished(ps[1..], []) == [(a, b), (a, b)];
    assert Unfinished(ps, []) == ps;
    assert InPending(items, [], pab) by {
      assert PairSet(Pending(items, [])[1]) == pab;
    }
    assert Unfinished(ps[1..][1..][1..], [c]) == [];
    assert Unfinished(ps[1..][1..], [c]) == [];
    assert Unfinished(ps[1..], [c]) == [];
    assert Unfinished(ps, [c]) == [(a, a)];
    assert Pending(items, [c]) == [(a, a)];
    assert !Judged(c, []);
    var none: seq<Comparison> := [];
    assert none + [c] == [c];
    assert Save(items, none, c) == Ok([c]);
    assert Choose2(3) == 3;
    assert PendingCount(items, [c]) == 2;
  }

  /** The tally of a three-item session with three comparisons, spelled out. */
  lemma TallyOfThree(items: seq<Item>, done: seq<Comparison>, a: nat, b: nat, c: nat)
    requires |items| == 3 && |done| == 3
    requires forall k :: 0 <= k < 3 ==> 0 <= done[k].winner < |done[k].items|
    requires Wins(items[0].name, done) == a && Wins(items[1].name, done) == b
    requires Wins(items[2].name, done) == c
    ensures Tally(items, done) == [(items[0].name, a), (items[1].name, b), (items[2].name, c)]
  {
    TallyIndex(items, done);
  }

  /** `Wins` over three comparisons, spelled out. */
  lemma WinsOfThree(name: string, done: seq<Comparison>)
    requires |done| == 3
    requires forall k :: 0 <= k < 3 ==> 0 <= done[k].winner < |done[k].items|
    ensures Wins(name, done) == (if WinnerOf(done[0]).name == name then 1 else 0)
                              + (if WinnerOf(done[1]).name == name then 1 else 0)
                              + (if WinnerOf(done[2]).name == name then 1 else 0)
  {
    var d2, d1 := done[..2], done[..2][..1];
    assert d2[0] == done[0] && d2[1] == done[1] && d1[0] == done[0];
    assert Wins(name, d1) == (if WinnerOf(done[0]).name == name then 1 else 0) by {
      assert d1[..0] == [];
    }
    assert Wins(name, d2) == Wins(name, d1) + (if WinnerOf(done[1]).name == name then 1 else 0);
  }
}

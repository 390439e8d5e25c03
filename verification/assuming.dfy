/** The assumed-transitive strategy: an online insertion sort in which the
    judge is the comparison. Items wait in `remaining`, are probed against the
    ranking from the top down (the cursor), and are spliced in at the first
    ranked item they beat, or appended after the last one. */
module Assuming {
  import opened Types

  /** The item being inserted and the ranking position it faces next. */
  datatype Cursor = Cursor(item: Item, testPos: int)

  datatype State = State(ranking: seq<Item>, remaining: seq<Item>,
                         comparisons: seq<Comparison>, cursor: Option<Cursor>)

  /** What a stored blob that parses as a JSON object yields: each key may be
      absent (or, for the cursor, null or empty). */
  datatype Blob = Blob(ranking: Option<seq<Item>>, remainingItems: Option<seq<Item>>,
                       comparisons: Option<seq<Comparison>>, pendingComparison: Option<Cursor>)

  /** The session's items in the order a random shuffle left them. */
  ghost predicate IsShuffleOf(shuffled: seq<Item>, items: seq<Item>) {
    multiset(shuffled) == multiset(items)
  }

  /** Rebuild the state from the session blob. `None` is a blob that does not
      parse; it falls back to a fresh state whose `remaining` is `shuffled`. */
  function Load(blob: Option<Blob>, items: seq<Item>, shuffled: seq<Item>): (st: State)
    requires IsShuffleOf(shuffled, items)
    ensures blob.None? ==> st.ranking == [] && st.comparisons == [] && st.cursor.None?
    ensures blob.None? ==> multiset(st.remaining) == multiset(items)
    ensures blob.Some? ==> st.ranking == (if blob.value.ranking.Some? then blob.value.ranking.value else [])
    ensures blob.Some? ==> st.remaining == (if blob.value.remainingItems.Some? then blob.value.remainingItems.value else [])
    ensures blob.Some? ==> st.comparisons == (if blob.value.comparisons.Some? then blob.value.comparisons.value else [])
    ensures blob.Some? ==> st.cursor == blob.value.pendingComparison
    ensures blob.Some? && blob.value == Blob(None, None, None, None) ==> st == State([], [], [], None)
  {
    match blob
    case None => State([], shuffled, [], None)
    case Some(b) =>
      State(b.ranking.GetOr([]), b.remainingItems.GetOr([]), b.comparisons.GetOr([]),
            b.pendingComparison)
  }

  function CursorItems(st: State): seq<Item> {
    if st.cursor.Some? then [st.cursor.value.item] else []
  }

  /** Items not yet in the ranking: the waiting ones and the one being probed. */
  function Unplaced(st: State): nat {
    |st.remaining| + |CursorItems(st)|
  }

  /** The ranking position the next challenger faces. */
  function Probe(st: State): int {
    if st.cursor.Some? then st.cursor.value.testPos else 0
  }

  /** The least the code needs to pick a pair without an IndexError. */
  predicate WellFormed(st: State) {
    |st.ranking| >= 2 && st.cursor.Some? ==> 0 <= st.cursor.value.testPos < |st.ranking|
  }

  /** `get_next_comparison`: bootstrap, probing, or a fresh challenge. */
  function NextPair(st: State): (r: Option<seq<Item>>)
    requires WellFormed(st)
    ensures r.None? <==> |st.ranking| >= 2 && Unplaced(st) == 0
    ensures |st.ranking| < 2 ==> r == Some(Take(st.remaining, 2))
    ensures r.Some? && |st.ranking| >= 2 ==>
              && |r.value| == 2
              && r.value[0] == (if st.cursor.Some? then st.cursor.value.item else st.remaining[0])
              && r.value[1] == st.ranking[Probe(st)]
  {
    if |st.ranking| < 2 then Some(Take(st.remaining, 2))
    else if st.cursor.Some? then
      Some([st.cursor.value.item, st.ranking[st.cursor.value.testPos]])
    else if |st.remaining| == 0 then None
    else Some([st.remaining[0], st.ranking[0]])
  }

  /** `get_pending_comparison_count`: the number of comparisons still needed
      depends on where items land, so it is never reported. */
  function PendingCount(st: State): (r: Option<nat>)
    ensures r.None?
  {
    None
  }

  /** `get_finished_comparison_count`. */
  function FinishedCount(st: State): (r: nat)
    ensures r == 0 <==> st.comparisons == []
  {
    |st.comparisons|
  }

  /** The state change of a submission that passed validation, or None where
      the code raises (IndexError on a short list, ValueError from `index`). */
  function Resolve(st: State, c: Comparison): (r: Option<State>)
    requires 0 <= c.winner <= 1
    ensures |c.items| < 2 ==> r.None?
    ensures |st.ranking| >= 2 && |c.items| >= 2 ==> (r.None? <==> c.items[1] !in st.ranking)
    ensures |st.ranking| < 2 && |c.items| >= 2 ==>
              && r.Some? && r.value.cursor.None?
              && multiset(r.value.ranking) == multiset{c.items[0], c.items[1]}
              && r.value.ranking[0] == c.items[c.winner]
    ensures r.Some? ==> r.value.comparisons == st.comparisons
  {
    if |c.items| < 2 then None
    else if |st.ranking| < 2 then
      var ranking := [c.items[c.winner], c.items[1 - c.winner]];
      assert multiset(ranking) == multiset{c.items[0], c.items[1]} by {
        if c.winner == 0 { assert ranking == [c.items[0], c.items[1]]; }
        else { assert ranking == [c.items[1], c.items[0]]; }
      }
      Some(State(ranking, Drop(st.remaining, 2), st.comparisons, None))
    else
      var found := IndexOf(st.ranking, c.items[1]);
      if found.None? then None
      else
        var idx := found.value;
        var remaining := if st.cursor.None? then Drop(st.remaining, 1) else st.remaining;
        if c.winner == 0 then
          Some(st.(ranking := Insert(st.ranking, idx, c.items[0]), remaining := remaining,
                   cursor := None))
        else if idx >= |st.ranking| - 1 then
          Some(st.(ranking := st.ranking + [c.items[0]], cursor := None))
        else
          Some(st.(remaining := remaining, cursor := Some(Cursor(c.items[0], idx + 1))))
  }

  /** Once bootstrapped, a challenger win adds exactly the challenger to the
      ranking; an incumbent win either appends the challenger after the last
      ranked item, or leaves the ranking alone and moves the cursor to just
      below the incumbent. */
  lemma ResolveSteady(st: State, c: Comparison)
    requires 0 <= c.winner <= 1 && |st.ranking| >= 2 && Resolve(st, c).Some?
    ensures var r := Resolve(st, c).value;
            c.winner == 0 ==>
              && r.cursor.None?
              && multiset(r.ranking) == multiset(st.ranking) + multiset{c.items[0]}
    ensures var r := Resolve(st, c).value;
            c.winner == 1 ==>
              || (&& r.ranking == st.ranking + [c.items[0]] && r.cursor.None?
                  && c.items[1] == st.ranking[|st.ranking| - 1])
              || (&& r.ranking == st.ranking && r.cursor.Some?
                  && r.cursor.value.item == c.items[0]
                  && 1 <= r.cursor.value.testPos < |st.ranking|
                  && st.ranking[r.cursor.value.testPos - 1] == c.items[1])
  {
    var idx := IndexOf(st.ranking, c.items[1]).value;
    assert st.ranking[idx] == c.items[1];
  }

  /** `save_comparison`: three checks in order, none of which changes the
      state, then the resolution and the record of the comparison. */
  function Save(st: State, c: Comparison): (r: Result<State, SaveError>)
    requires WellFormed(st)
    ensures Judged(c, st.comparisons) ==> r == Err(DuplicateComparison)
    ensures !Judged(c, st.comparisons) && NextPair(st).None? ==> r == Err(Unhandled)
    ensures (!Judged(c, st.comparisons) && NextPair(st).Some?
             && ItemSet(c.items) != ItemSet(NextPair(st).value)) ==> r == Err(InvalidPair)
    ensures (!Judged(c, st.comparisons) && NextPair(st).Some?
             && ItemSet(c.items) == ItemSet(NextPair(st).value)
             && !(0 <= c.winner <= 1)) ==> r == Err(WinnerOutOfRange)
    ensures r.Ok? ==> && NextPair(st).Some? && ItemSet(c.items) == ItemSet(NextPair(st).value)
                      && 0 <= c.winner <= 1
                      && r.value.comparisons == st.comparisons + [c]
                      && FinishedCount(r.value) == FinishedCount(st) + 1
  {
    if Judged(c, st.comparisons) then Err(DuplicateComparison)
    else if NextPair(st).None? then Err(Unhandled)
    else if ItemSet(c.items) != ItemSet(NextPair(st).value) then Err(InvalidPair)
    else if !(0 <= c.winner <= 1) then Err(WinnerOutOfRange)
    else match Resolve(st, c)
      case None => Err(Unhandled)
      case Some(next) => Ok(next.(comparisons := st.comparisons + [c]))
  }

  /** `get_results`: the ranking, best first, with no score. */
  function Results(st: State): (r: seq<(string, Option<int>)>)
    ensures |r| == |st.ranking|
    ensures forall i :: 0 <= i < |r| ==> r[i].0 == st.ranking[i].name && r[i].1.None?
  {
    seq(|st.ranking|, i requires 0 <= i < |st.ranking| => (st.ranking[i].name, None))
  }

  // ---------------------------------------------------------------------
  // The invariant
  // ---------------------------------------------------------------------

  /** Ranking, remaining and cursor item together are the session's items. */
  ghost predicate Partition(st: State, items: seq<Item>) {
    multiset(st.ranking + st.remaining + CursorItems(st)) == multiset(items)
  }

  /** A cursor exists only once the ranking is bootstrapped, and never points
      at the top of the ranking or past its end. */
  ghost predicate CursorBound(st: State) {
    st.cursor.Some? ==> |st.ranking| >= 2 && 1 <= st.cursor.value.testPos <= |st.ranking| - 1
  }

  /** A judged pair lies inside the ranking, or is the cursor item against a
      ranked item above its current test position. */
  ghost predicate Covered(st: State, s: set<Item>) {
    || (forall x :: x in s ==> x in st.ranking)
    || (&& st.cursor.Some? && 0 <= st.cursor.value.testPos <= |st.ranking|
        && forall x :: x in s ==> x == st.cursor.value.item
                                  || x in st.ranking[..st.cursor.value.testPos])
  }

  ghost predicate History(st: State) {
    forall k :: 0 <= k < |st.comparisons| ==> Covered(st, ItemSet(st.comparisons[k].items))
  }

  ghost predicate Inv(st: State, items: seq<Item>) {
    && Distinct(items)
    && Partition(st, items)
    && |st.ranking| != 1
    && CursorBound(st)
    && DistinctPairs(st.comparisons)
    && History(st)
  }

  lemma InvParts(st: State, items: seq<Item>)
    requires Inv(st, items)
    ensures WellFormed(st)
    ensures Distinct(st.ranking) && Distinct(st.remaining)
    ensures forall x :: x in st.ranking ==> x !in st.remaining && x !in CursorItems(st)
    ensures forall x :: x in st.remaining ==> x !in CursorItems(st)
    ensures forall x :: x in st.ranking + st.remaining + CursorItems(st) <==> x in items
    ensures |st.ranking| + Unplaced(st) == |items|
  {
    var all := st.ranking + st.remaining + CursorItems(st);
    PermutationKeepsDistinct(all, items);
    DistinctSplit(st.ranking + st.remaining, CursorItems(st));
    DistinctSplit(st.ranking, st.remaining);
    forall x
      ensures x in all <==> x in items
    {
      assert x in all <==> x in multiset(all);
      assert x in items <==> x in multiset(items);
    }
    assert |multiset(all)| == |multiset(items)|;
  }

  /** The fallback state satisfies the invariant. */
  lemma LoadFallbackInv(items: seq<Item>, shuffled: seq<Item>)
    requires Distinct(items) && IsShuffleOf(shuffled, items)
    ensures Inv(Load(None, items, shuffled), items)
  {
    var st := Load(None, items, shuffled);
    assert st.ranking + st.remaining + CursorItems(st) == shuffled;
  }

  /** The item a steady-state pair puts first: the cursor item while probing,
      otherwise the head of `remaining`. */
  function Challenger(st: State): Item
    requires st.cursor.Some? || |st.remaining| > 0
  {
    if st.cursor.Some? then st.cursor.value.item else st.remaining[0]
  }

  lemma CoveredWithin(st: State, s: set<Item>)
    requires Covered(st, s)
    ensures forall x :: x in s ==> x in st.ranking || x in CursorItems(st)
  {
    if !(forall x :: x in s ==> x in st.ranking) {
      var tp := st.cursor.value.testPos;
      forall x | x in s
        ensures x in st.ranking || x in CursorItems(st)
      {
        if x != st.cursor.value.item {
          assert x in st.ranking[..tp];
        }
      }
    }
  }

  /** A pair made of an unranked item `a` and an item `b` that is neither the
      cursor item nor ranked above the test position was never judged. */
  lemma PairNotCovered(st: State, s: set<Item>, a: Item, b: Item)
    requires Covered(st, s)
    requires a !in st.ranking
    requires st.cursor.Some? && 0 <= st.cursor.value.testPos <= |st.ranking| ==>
               b !in st.ranking[..st.cursor.value.testPos] && b != st.cursor.value.item
    ensures !(a in s && b in s)
  {
    if forall x :: x in s ==> x in st.ranking {
      assert a !in s;
    } else {
      assert b !in s;
    }
  }

  /** Under the invariant the next pair is two different items, the first not
      yet ranked, and the pair has never been judged. */
  lemma NextPairFresh(st: State, items: seq<Item>)
    requires Inv(st, items) && |items| >= 2
    ensures NextPair(st).Some? ==>
              var p := NextPair(st).value;
              && |p| == 2 && p[0] != p[1] && p[0] !in st.ranking
              && p[0] in items && p[1] in items
              && !Finished(ItemSet(p), st.comparisons)
    ensures NextPair(st).Some? && |st.ranking| >= 2 ==>
              NextPair(st).value[0] == Challenger(st)
  {
    InvParts(st, items);
    if NextPair(st).Some? {
      var p := NextPair(st).value;
      if |st.ranking| < 2 {
        assert st.ranking == [] && CursorItems(st) == [];
        assert st.ranking + st.remaining + CursorItems(st) == st.remaining;
        assert |st.remaining| == |items|;
        assert p == [st.remaining[0], st.remaining[1]];
        assert st.remaining[0] != st.remaining[1];
      } else {
        assert st.ranking[Probe(st)] in st.ranking;
        if st.cursor.Some? {
          assert p[0] in CursorItems(st);
        } else {
          assert p[0] in st.remaining;
        }
      }
      forall k | 0 <= k < |st.comparisons|
        ensures ItemSet(st.comparisons[k].items) != ItemSet(p)
      {
        PairNotCovered(st, ItemSet(st.comparisons[k].items), p[0], p[1]);
      }
    }
  }

  /** The next pair is None exactly when every item has been ranked. */
  lemma NextPairNoneIffComplete(st: State, items: seq<Item>)
    requires Inv(st, items) && |items| >= 2
    ensures NextPair(st).None? <==> multiset(st.ranking) == multiset(items)
  {
    InvParts(st, items);
    if multiset(st.ranking) == multiset(items) {
      assert |st.ranking| == |items|;
    }
    if NextPair(st).None? {
      assert st.remaining == [] && CursorItems(st) == [];
      assert st.ranking + st.remaining + CursorItems(st) == st.ranking;
    }
  }

  /** A steady-state submission that is accepted is the next pair in its own
      order: challenger first, and the incumbent found at the probe position. */
  lemma SteadySubmission(st: State, items: seq<Item>, c: Comparison)
    requires Inv(st, items) && |items| >= 2 && |st.ranking| >= 2 && |c.items| == 2
    requires Save(st, c).Ok?
    ensures NextPair(st).Some? && c.items == NextPair(st).value
    ensures c.items[0] == Challenger(st) && c.items[0] !in st.ranking
    ensures IndexOf(st.ranking, c.items[1]) == Some(Probe(st))
  {
    InvParts(st, items);
    NextPairFresh(st, items);
    var p := NextPair(st).value;
    assert Resolve(st, c).Some?;
    var idx := IndexOf(st.ranking, c.items[1]).value;
    assert c.items[1] in ItemSet(p);
    assert c.items[1] == p[1];
    assert p[0] in ItemSet(c.items);
    assert c.items == p;
    assert st.ranking[idx] == st.ranking[Probe(st)];
  }

  /** The state an accepted bootstrap submission produces. */
  lemma BootstrapShape(st: State, c: Comparison)
    requires WellFormed(st) && |st.ranking| < 2 && Save(st, c).Ok?
    ensures |c.items| >= 2 && 0 <= c.winner <= 1
    ensures Save(st, c).value == State([c.items[c.winner], c.items[1 - c.winner]],
                                       Drop(st.remaining, 2), st.comparisons + [c], None)
  {
    assert Resolve(st, c).Some?;
  }

  /** When every item the old state had placed or was probing ends up ranked,
      and so does the new pair, the judged pairs stay covered. */
  lemma HistoryRanked(st: State, st': State, c: Comparison)
    requires History(st) && st'.comparisons == st.comparisons + [c]
    requires forall x :: x in st.ranking ==> x in st'.ranking
    requires forall x :: x in CursorItems(st) ==> x in st'.ranking
    requires forall x :: x in c.items ==> x in st'.ranking
    ensures History(st')
  {
    forall k | 0 <= k < |st'.comparisons|
      ensures Covered(st', ItemSet(st'.comparisons[k].items))
    {
      if k < |st.comparisons| {
        CoveredWithin(st, ItemSet(st.comparisons[k].items));
        assert st'.comparisons[k] == st.comparisons[k];
      } else {
        assert st'.comparisons[k] == c;
      }
    }
  }

  /** The bootstrap pair is the first two waiting items, in either order. */
  lemma BootstrapPair(st: State, items: seq<Item>, c: Comparison)
    requires Inv(st, items) && |items| >= 2 && |st.ranking| < 2 && |c.items| == 2
    requires ItemSet(c.items) == ItemSet(Take(st.remaining, 2))
    ensures st.ranking == [] && st.cursor.None? && |st.remaining| >= 2
    ensures st.remaining[0] != st.remaining[1]
    ensures || (c.items[0] == st.remaining[0] && c.items[1] == st.remaining[1])
            || (c.items[0] == st.remaining[1] && c.items[1] == st.remaining[0])
  {
    BootstrapStart(st, items);
    var r0, r1 := st.remaining[0], st.remaining[1];
    assert Take(st.remaining, 2) == [r0, r1];
    assert c.items == [c.items[0], c.items[1]];
    TwoOfTwo(c.items[0], c.items[1], r0, r1);
  }

  /** Before the bootstrap, every session item is waiting, so at least two
      distinct items are. */
  lemma BootstrapStart(st: State, items: seq<Item>)
    requires Inv(st, items) && |items| >= 2 && |st.ranking| < 2
    ensures st.ranking == [] && st.cursor.None? && |st.remaining| >= 2
    ensures st.remaining[0] != st.remaining[1]
  {
    InvParts(st, items);
    assert st.ranking + st.remaining + CursorItems(st) == st.remaining;
  }

  /** Two lists of two items with the same set, the second without repeats,
      are equal or reversed. */
  lemma TwoOfTwo(a: Item, b: Item, x: Item, y: Item)
    requires ItemSet([a, b]) == ItemSet([x, y]) && x != y
    ensures (a == x && b == y) || (a == y && b == x)
  {
    assert x in ItemSet([a, b]) && y in ItemSet([a, b]);
    assert a in ItemSet([x, y]) && b in ItemSet([x, y]);
  }

  /** Bootstrapping moves the first two waiting items into the ranking. */
  lemma BootstrapPartition(st: State, items: seq<Item>, c: Comparison)
    requires Inv(st, items) && |items| >= 2 && |st.ranking| < 2 && |c.items| == 2
    requires 0 <= c.winner <= 1
    requires ItemSet(c.items) == ItemSet(Take(st.remaining, 2))
    ensures Partition(State([c.items[c.winner], c.items[1 - c.winner]], Drop(st.remaining, 2),
                            st.comparisons + [c], None), items)
  {
    BootstrapPair(st, items, c);
    var st' := State([c.items[c.winner], c.items[1 - c.winner]], Drop(st.remaining, 2),
                     st.comparisons + [c], None);
    var r0, r1 := st.remaining[0], st.remaining[1];
    assert st.remaining == [r0, r1] + st.remaining[2..];
    assert multiset(st'.ranking) == multiset{r0, r1};
    assert st'.ranking + st'.remaining + CursorItems(st') == st'.ranking + st.remaining[2..];
    assert st.ranking + st.remaining + CursorItems(st) == st.remaining;
  }

  /** Bootstrapping from the first two waiting items keeps the invariant. */
  lemma BootstrapInv(st: State, items: seq<Item>, c: Comparison)
    requires Inv(st, items) && |items| >= 2 && |st.ranking| < 2 && |c.items| == 2
    requires 0 <= c.winner <= 1 && !Judged(c, st.comparisons)
    requires ItemSet(c.items) == ItemSet(Take(st.remaining, 2))
    ensures |st.remaining| >= 2
    ensures Inv(State([c.items[c.winner], c.items[1 - c.winner]], Drop(st.remaining, 2),
                      st.comparisons + [c], None), items)
  {
    BootstrapPair(st, items, c);
    BootstrapPartition(st, items, c);
    var st' := State([c.items[c.winner], c.items[1 - c.winner]], Drop(st.remaining, 2),
                     st.comparisons + [c], None);
    AppendUnjudged(st.comparisons, c);
    assert forall x :: x in c.items ==> x in st'.ranking;
    HistoryRanked(st, st', c);
  }

  /** An accepted bootstrap submission ranks its winner above its loser, both
      taken from the head of `remaining`, and starts no cursor. */
  lemma BootstrapStep(st: State, items: seq<Item>, c: Comparison)
    requires Inv(st, items) && |items| >= 2 && |st.ranking| < 2 && |c.items| == 2
    requires Save(st, c).Ok?
    ensures |st.remaining| >= 2
    ensures Save(st, c).value.ranking == [c.items[c.winner], c.items[1 - c.winner]]
    ensures multiset(Save(st, c).value.ranking) == multiset(st.remaining[..2])
    ensures Save(st, c).value.remaining == st.remaining[2..]
    ensures Save(st, c).value.cursor.None?
  {
    BootstrapShape(st, c);
    BootstrapPair(st, items, c);
    var st' := Save(st, c).value;
    var r0, r1 := st.remaining[0], st.remaining[1];
    assert st.remaining[..2] == [r0, r1];
    assert multiset(st'.ranking) == multiset{r0, r1};
  }

  /** What is left waiting once the challenger is taken: the challenger leaves
      `remaining` only when it was not already the cursor item. */
  function RemainingAfter(st: State): seq<Item> {
    if st.cursor.None? then Drop(st.remaining, 1) else st.remaining
  }

  lemma TakeChallenger(st: State)
    requires st.cursor.Some? || |st.remaining| > 0
    ensures multiset(st.remaining + CursorItems(st))
            == multiset(RemainingAfter(st)) + multiset{Challenger(st)}
    ensures |RemainingAfter(st)| + 1 == Unplaced(st)
  {
    if st.cursor.None? {
      assert st.remaining == [st.remaining[0]] + st.remaining[1..];
      assert st.remaining + CursorItems(st) == st.remaining;
    }
  }

  lemma PartitionSplit(st: State)
    ensures multiset(st.ranking + st.remaining + CursorItems(st))
            == multiset(st.ranking) + multiset(st.remaining + CursorItems(st))
  {
    assert st.ranking + st.remaining + CursorItems(st)
        == st.ranking + (st.remaining + CursorItems(st));
  }

  /** The state an accepted steady-state submission produces: a challenger
      win splices it in at the probe position, an incumbent win at the last
      position appends it, any other incumbent win moves the cursor down one. */
  lemma SteadyShape(st: State, items: seq<Item>, c: Comparison)
    requires Inv(st, items) && |items| >= 2 && |st.ranking| >= 2 && |c.items| == 2
    requires Save(st, c).Ok?
    ensures NextPair(st).Some? && c.items == NextPair(st).value
    ensures c.items[0] == Challenger(st) && c.items[0] !in st.ranking
    ensures 0 <= Probe(st) < |st.ranking|
    ensures c.winner == 0 ==>
              Save(st, c).value == State(Insert(st.ranking, Probe(st), Challenger(st)),
                                         RemainingAfter(st), st.comparisons + [c], None)
    ensures c.winner == 1 && Probe(st) == |st.ranking| - 1 ==>
              && st.cursor.Some?
              && Save(st, c).value == st.(ranking := st.ranking + [Challenger(st)],
                                          comparisons := st.comparisons + [c], cursor := None)
    ensures c.winner == 1 && Probe(st) < |st.ranking| - 1 ==>
              Save(st, c).value == st.(remaining := RemainingAfter(st),
                                       comparisons := st.comparisons + [c],
                                       cursor := Some(Cursor(Challenger(st), Probe(st) + 1)))
  {
    SteadySubmission(st, items, c);
    assert Resolve(st, c).Some?;
  }

  /** Splicing the challenger in at the probe position keeps the invariant. */
  lemma InsertInv(st: State, items: seq<Item>, c: Comparison)
    requires Inv(st, items) && |items| >= 2 && |st.ranking| >= 2
    requires NextPair(st).Some? && c.items == NextPair(st).value && !Judged(c, st.comparisons)
    ensures 0 <= Probe(st) < |st.ranking|
    ensures Inv(State(Insert(st.ranking, Probe(st), Challenger(st)), RemainingAfter(st),
                      st.comparisons + [c], None), items)
  {
    InvParts(st, items);
    var st' := State(Insert(st.ranking, Probe(st), Challenger(st)), RemainingAfter(st),
                     st.comparisons + [c], None);
    TakeChallenger(st);
    PartitionSplit(st);
    PartitionSplit(st');
    assert st'.remaining + CursorItems(st') == RemainingAfter(st);
    assert Partition(st', items);
    AppendUnjudged(st.comparisons, c);
    assert forall x :: x in st.ranking ==> x in multiset(st'.ranking);
    assert forall x :: x in c.items ==> x in st'.ranking;
    HistoryRanked(st, st', c);
  }

  /** Appending a challenger that lost at the last position keeps the invariant. */
  lemma AppendInv(st: State, items: seq<Item>, c: Comparison)
    requires Inv(st, items) && |items| >= 2 && |st.ranking| >= 2 && st.cursor.Some?
    requires NextPair(st).Some? && c.items == NextPair(st).value && !Judged(c, st.comparisons)
    ensures Inv(st.(ranking := st.ranking + [Challenger(st)],
                    comparisons := st.comparisons + [c], cursor := None), items)
  {
    InvParts(st, items);
    var st' := st.(ranking := st.ranking + [Challenger(st)],
                   comparisons := st.comparisons + [c], cursor := None);
    TakeChallenger(st);
    PartitionSplit(st);
    PartitionSplit(st');
    assert st'.remaining + CursorItems(st') == RemainingAfter(st);
    assert Partition(st', items);
    AppendUnjudged(st.comparisons, c);
    assert forall x :: x in c.items ==> x in st'.ranking;
    HistoryRanked(st, st', c);
  }

  /** Moving the cursor one position down keeps every judged pair covered. */
  lemma AdvanceHistory(st: State, st': State, c: Comparison)
    requires History(st) && CursorBound(st) && |st.ranking| >= 2
    requires st.cursor.Some? || |st.remaining| > 0
    requires 0 <= Probe(st) < |st.ranking| - 1
    requires st'.ranking == st.ranking && st'.comparisons == st.comparisons + [c]
    requires st'.cursor == Some(Cursor(Challenger(st), Probe(st) + 1))
    requires c.items == [Challenger(st), st.ranking[Probe(st)]]
    ensures History(st')
  {
    var p := Probe(st);
    var r := st.ranking;
    assert r[..p + 1] == r[..p] + [r[p]];
    forall k | 0 <= k < |st'.comparisons|
      ensures Covered(st', ItemSet(st'.comparisons[k].items))
    {
      if k < |st.comparisons| {
        var s := ItemSet(st.comparisons[k].items);
        assert st'.comparisons[k] == st.comparisons[k];
        if !(forall x :: x in s ==> x in r) {
          assert forall x :: x in s ==> x == Challenger(st) || x in r[..p + 1];
        }
      } else {
        assert st'.comparisons[k] == c;
        assert forall x :: x in c.items ==> x == Challenger(st) || x in r[..p + 1];
      }
    }
  }

  /** Sending the challenger one position further down keeps the invariant. */
  lemma AdvanceInv(st: State, items: seq<Item>, c: Comparison)
    requires Inv(st, items) && |items| >= 2 && |st.ranking| >= 2
    requires NextPair(st).Some? && c.items == NextPair(st).value && !Judged(c, st.comparisons)
    requires Probe(st) < |st.ranking| - 1
    ensures Inv(st.(remaining := RemainingAfter(st), comparisons := st.comparisons + [c],
                    cursor := Some(Cursor(Challenger(st), Probe(st) + 1))), items)
  {
    InvParts(st, items);
    var st' := st.(remaining := RemainingAfter(st), comparisons := st.comparisons + [c],
                   cursor := Some(Cursor(Challenger(st), Probe(st) + 1)));
    TakeChallenger(st);
    PartitionSplit(st);
    PartitionSplit(st');
    assert st'.remaining + CursorItems(st') == RemainingAfter(st) + [Challenger(st)];
    assert Partition(st', items);
    AppendUnjudged(st.comparisons, c);
    AdvanceHistory(st, st', c);
  }

  /** Every accepted submission of a two-item list keeps the invariant: the
      items stay partitioned, the cursor stays in range, judged pairs stay
      distinct and the pair the strategy will ask for next is still fresh. */
  lemma SavePreservesInv(st: State, items: seq<Item>, c: Comparison)
    requires Inv(st, items) && |items| >= 2 && |c.items| == 2
    requires Save(st, c).Ok?
    ensures Inv(Save(st, c).value, items)
  {
    if |st.ranking| < 2 {
      BootstrapShape(st, c);
      BootstrapInv(st, items, c);
    } else {
      SteadyShape(st, items, c);
      if c.winner == 0 {
        InsertInv(st, items, c);
      } else if Probe(st) == |st.ranking| - 1 {
        AppendInv(st, items, c);
      } else {
        AdvanceInv(st, items, c);
      }
    }
  }

  /** Every accepted submission either places at least one more item, or
      keeps the same items unplaced and moves the cursor strictly down. */
  lemma SaveMakesProgress(st: State, items: seq<Item>, c: Comparison)
    requires Inv(st, items) && |items| >= 2 && |c.items| == 2
    requires Save(st, c).Ok?
    ensures var st' := Save(st, c).value;
              || (|st'.ranking| > |st.ranking| && Unplaced(st') < Unplaced(st))
              || (&& st'.ranking == st.ranking && Unplaced(st') == Unplaced(st)
                  && st'.cursor.Some? && Probe(st') > Probe(st))
  {
    if |st.ranking| < 2 {
      BootstrapShape(st, c);
      BootstrapPair(st, items, c);
    } else {
      SteadyShape(st, items, c);
      TakeChallenger(st);
    }
  }

  /** A challenger win moves no other item: removing the challenger from the
      new ranking gives back the old one. */
  lemma SpliceKeepsOthers(st: State, items: seq<Item>, c: Comparison)
    requires Inv(st, items) && |items| >= 2 && |st.ranking| >= 2 && |c.items| == 2
    requires Save(st, c).Ok? && c.winner == 0
    ensures var r' := Save(st, c).value.ranking;
              && 0 <= Probe(st) < |st.ranking|
              && r'[Probe(st)] == c.items[0]
              && r'[..Probe(st)] + r'[Probe(st) + 1..] == st.ranking
  {
    SteadyShape(st, items, c);
    var p := Probe(st);
    assert st.ranking == st.ranking[..p] + st.ranking[p..];
  }

  // ---------------------------------------------------------------------
  // A judge that follows a strict total order
  // ---------------------------------------------------------------------

  /** Strictly best first under `score`. */
  ghost predicate Sorted(r: seq<Item>, score: Item -> int) {
    forall i, j :: 0 <= i < j < |r| ==> score(r[i]) > score(r[j])
  }

  /** The ranking is sorted, and the item being probed is worse than every
      ranked item above its test position. */
  ghost predicate Ordered(st: State, score: Item -> int) {
    && Sorted(st.ranking, score)
    && (st.cursor.Some? ==>
          forall k :: 0 <= k < st.cursor.value.testPos && k < |st.ranking| ==>
            score(st.ranking[k]) > score(st.cursor.value.item))
  }

  /** `score` orders the session's items strictly. */
  ghost predicate DistinctScores(items: seq<Item>, score: Item -> int) {
    forall i, j :: 0 <= i < j < |items| ==> score(items[i]) != score(items[j])
  }

  /** The verdict of a judge who prefers the higher score. */
  function Verdict(score: Item -> int, pair: seq<Item>): int
    requires |pair| == 2
  {
    if score(pair[0]) > score(pair[1]) then 0 else 1
  }

  lemma ScoresDiffer(items: seq<Item>, score: Item -> int, x: Item, y: Item)
    requires DistinctScores(items, score) && x in items && y in items && x != y
    ensures score(x) != score(y)
  {
    var i :| 0 <= i < |items| && items[i] == x;
    var j :| 0 <= j < |items| && items[j] == y;
    if i > j {
      assert score(items[j]) != score(items[i]);
    }
  }

  lemma InsertSorted(r: seq<Item>, p: nat, x: Item, score: Item -> int)
    requires Sorted(r, score) && p < |r|
    requires forall k :: 0 <= k < p ==> score(r[k]) > score(x)
    requires score(x) > score(r[p])
    ensures Sorted(Insert(r, p, x), score)
  {
    var r' := Insert(r, p, x);
    forall i, j | 0 <= i < j < |r'|
      ensures score(r'[i]) > score(r'[j])
    {
      if j < p {
        assert r'[i] == r[i] && r'[j] == r[j];
      } else if j == p {
        assert r'[i] == r[i];
      } else if i < p {
        assert r'[i] == r[i] && r'[j] == r[j - 1];
      } else if i == p {
        assert r'[j] == r[j - 1];
      } else {
        assert r'[i] == r[i - 1] && r'[j] == r[j - 1];
      }
    }
  }

  lemma AppendSorted(r: seq<Item>, x: Item, score: Item -> int)
    requires Sorted(r, score)
    requires forall k :: 0 <= k < |r| ==> score(r[k]) > score(x)
    ensures Sorted(r + [x], score)
  {
  }

  /** Everything ranked above the probe position beats the challenger. */
  ghost predicate AboveProbeBeats(st: State, score: Item -> int)
    requires st.cursor.Some? || |st.remaining| > 0
  {
    forall k :: 0 <= k < Probe(st) && k < |st.ranking| ==>
      score(st.ranking[k]) > score(Challenger(st))
  }

  lemma OrderedAboveProbe(st: State, score: Item -> int)
    requires Ordered(st, score) && (st.cursor.Some? || |st.remaining| > 0)
    ensures AboveProbeBeats(st, score)
  {
  }

  lemma InsertOrdered(st: State, c: Comparison, score: Item -> int)
    requires Sorted(st.ranking, score) && (st.cursor.Some? || |st.remaining| > 0)
    requires 0 <= Probe(st) < |st.ranking| && AboveProbeBeats(st, score)
    requires score(Challenger(st)) > score(st.ranking[Probe(st)])
    ensures Ordered(State(Insert(st.ranking, Probe(st), Challenger(st)), RemainingAfter(st),
                          st.comparisons + [c], None), score)
  {
    InsertSorted(st.ranking, Probe(st), Challenger(st), score);
  }

  lemma AppendOrdered(st: State, c: Comparison, score: Item -> int)
    requires Sorted(st.ranking, score) && st.cursor.Some? && |st.ranking| >= 1
    requires Probe(st) == |st.ranking| - 1 && AboveProbeBeats(st, score)
    requires score(st.ranking[Probe(st)]) > score(Challenger(st))
    ensures Ordered(st.(ranking := st.ranking + [Challenger(st)],
                        comparisons := st.comparisons + [c], cursor := None), score)
  {
    AppendSorted(st.ranking, Challenger(st), score);
  }

  lemma AdvanceOrdered(st: State, c: Comparison, score: Item -> int)
    requires Sorted(st.ranking, score) && (st.cursor.Some? || |st.remaining| > 0)
    requires 0 <= Probe(st) < |st.ranking| && AboveProbeBeats(st, score)
    requires score(st.ranking[Probe(st)]) > score(Challenger(st))
    ensures Ordered(st.(remaining := RemainingAfter(st), comparisons := st.comparisons + [c],
                        cursor := Some(Cursor(Challenger(st), Probe(st) + 1))), score)
  {
  }

  lemma VerdictRanksPair(pair: seq<Item>, score: Item -> int)
    requires |pair| == 2 && score(pair[0]) != score(pair[1])
    ensures Sorted([pair[Verdict(score, pair)], pair[1 - Verdict(score, pair)]], score)
  {
  }

  /** With a judge that follows the scores, an accepted submission keeps the
      ranking sorted best first and the probed item below everything above
      its test position. */
  lemma SavePreservesOrder(st: State, items: seq<Item>, c: Comparison, score: Item -> int)
    requires Inv(st, items) && |items| >= 2 && |c.items| == 2
    requires DistinctScores(items, score) && Ordered(st, score)
    requires c.winner == Verdict(score, c.items)
    requires Save(st, c).Ok?
    ensures Ordered(Save(st, c).value, score)
  {
    InvParts(st, items);
    NextPairFresh(st, items);
    assert c.items[0] in ItemSet(NextPair(st).value) && c.items[1] in ItemSet(NextPair(st).value);
    if |st.ranking| < 2 {
      BootstrapShape(st, c);
      BootstrapPair(st, items, c);
      ScoresDiffer(items, score, c.items[0], c.items[1]);
      VerdictRanksPair(c.items, score);
    } else {
      SteadyShape(st, items, c);
      ScoresDiffer(items, score, c.items[0], c.items[1]);
      OrderedAboveProbe(st, score);
      if c.winner == 0 {
        InsertOrdered(st, c, score);
      } else if Probe(st) == |st.ranking| - 1 {
        AppendOrdered(st, c, score);
      } else {
        AdvanceOrdered(st, c, score);
      }
    }
  }

  // ---------------------------------------------------------------------
  // Running the strategy to completion
  // ---------------------------------------------------------------------

  /** The pair the strategy asks for, judged by any verdict, is accepted. */
  lemma NextPairAccepted(st: State, items: seq<Item>, winner: int)
    requires Inv(st, items) && |items| >= 2 && NextPair(st).Some?
    requires 0 <= winner <= 1
    ensures |NextPair(st).value| == 2
    ensures Save(st, Comparison(NextPair(st).value, winner)).Ok?
  {
    InvParts(st, items);
    NextPairFresh(st, items);
    var c := Comparison(NextPair(st).value, winner);
    if |st.ranking| >= 2 {
      assert IndexOf(st.ranking, c.items[1]).Some?;
    }
    assert Resolve(st, c).Some?;
  }

  /** The interactive loop: ask for the next pair, let the judge decide by
      `score`, submit, until no pair is left. */
  function Run(st: State, items: seq<Item>, score: Item -> int): (final: State)
    requires Inv(st, items) && |items| >= 2
    requires DistinctScores(items, score) && Ordered(st, score)
    ensures Inv(final, items) && Ordered(final, score)
    ensures WellFormed(final) && NextPair(final).None?
    decreases Unplaced(st), |items| - Probe(st)
  {
    InvParts(st, items);
    match NextPair(st)
    case None => st
    case Some(p) =>
      NextPairAccepted(st, items, Verdict(score, p));
      var c := Comparison(p, Verdict(score, p));
      var st' := Save(st, c).value;
      SavePreservesInv(st, items, c);
      SavePreservesOrder(st, items, c, score);
      SaveMakesProgress(st, items, c);
      InvParts(st', items);
      Run(st', items, score)
  }

  /** Two rankings sorted strictly by the same score and holding the same
      items are the same ranking. */
  lemma {:induction false} SortedUnique(a: seq<Item>, b: seq<Item>, score: Item -> int)
    requires Sorted(a, score) && Sorted(b, score) && multiset(a) == multiset(b)
    ensures a == b
    decreases |a|
  {
    if |a| > 0 {
      SortedHeads(a, b, score);
      SortedTail(a, score);
      SortedTail(b, score);
      SortedUnique(a[1..], b[1..], score);
      assert a == [a[0]] + a[1..] && b == [b[0]] + b[1..];
    }
  }

  /** The best of two equal item collections, sorted by the same score, is
      the same item. */
  lemma SortedHeads(a: seq<Item>, b: seq<Item>, score: Item -> int)
    requires Sorted(a, score) && Sorted(b, score) && multiset(a) == multiset(b) && |a| > 0
    ensures |b| > 0 && a[0] == b[0]
  {
    assert a[0] in multiset(b);
    assert b[0] in multiset(a);
    var i :| 0 <= i < |b| && b[i] == a[0];
    var j :| 0 <= j < |a| && a[j] == b[0];
    assert score(a[0]) >= score(a[j]) && score(b[0]) >= score(b[i]);
    assert i == 0;
  }

  /** Dropping the best item keeps the rest sorted, and the same minus it. */
  lemma SortedTail(a: seq<Item>, score: Item -> int)
    requires Sorted(a, score) && |a| > 0
    ensures Sorted(a[1..], score)
    ensures multiset(a[1..]) == multiset(a) - multiset{a[0]}
  {
    assert a == [a[0]] + a[1..];
  }

  /** A judge that follows a strict total order on the session's items gets
      every item ranked, best first, and then no further pair is asked for. */
  lemma RunRanksAllItems(items: seq<Item>, score: Item -> int, shuffled: seq<Item>)
    requires Distinct(items) && |items| >= 2 && DistinctScores(items, score)
    requires IsShuffleOf(shuffled, items)
    ensures var start := Load(None, items, shuffled);
            Inv(start, items) && Ordered(start, score)
    ensures var final := Run(Load(None, items, shuffled), items, score);
              && Sorted(final.ranking, score)
              && multiset(final.ranking) == multiset(items)
              && NextPair(final).None?
  {
    LoadFallbackInv(items, shuffled);
    var final := Run(Load(None, items, shuffled), items, score);
    NextPairNoneIffComplete(final, items);
  }

  /** The final ranking does not depend on the initial shuffle. */
  lemma ShuffleIrrelevant(items: seq<Item>, score: Item -> int, s1: seq<Item>, s2: seq<Item>)
    requires Distinct(items) && |items| >= 2 && DistinctScores(items, score)
    requires IsShuffleOf(s1, items) && IsShuffleOf(s2, items)
    ensures Inv(Load(None, items, s1), items) && Ordered(Load(None, items, s1), score)
    ensures Inv(Load(None, items, s2), items) && Ordered(Load(None, items, s2), score)
    ensures Results(Run(Load(None, items, s1), items, score))
         == Results(Run(Load(None, items, s2), items, score))
  {
    LoadFallbackInv(items, s1);
    LoadFallbackInv(items, s2);
    RunRanksAllItems(items, score, s1);
    RunRanksAllItems(items, score, s2);
    SortedUnique(Run(Load(None, items, s1), items, score).ranking,
                 Run(Load(None, items, s2), items, score).ranking, score);
  }

  /** Once no pair is left, the results name every session item exactly once
      and carry no score. */
  lemma ResultsAtEnd(st: State, items: seq<Item>)
    requires Inv(st, items) && |items| >= 2 && NextPair(st).None?
    ensures |Results(st)| == |items|
    ensures forall x :: x in items ==>
              exists i :: 0 <= i < |Results(st)| && Results(st)[i] == (x.name, None)
    ensures forall i :: 0 <= i < |Results(st)| ==> Results(st)[i].1.None?
  {
    InvParts(st, items);
    NextPairNoneIffComplete(st, items);
    forall x | x in items
      ensures exists i :: 0 <= i < |Results(st)| && Results(st)[i] == (x.name, None)
    {
      assert x in multiset(st.ranking);
      var i :| 0 <= i < |st.ranking| && st.ranking[i] == x;
      assert Results(st)[i] == (x.name, None);
    }
  }

  /** A judge who prefers alphabetically earlier single-letter names. */
  function Alphabetical(x: Item): int {
    if x.name == "A" then 3 else if x.name == "B" then 2 else if x.name == "C" then 1 else 0
  }

  lemma AlphabeticalIsStrict()
    ensures DistinctScores([Item("A"), Item("B"), Item("C")], Alphabetical)
    ensures Sorted([Item("A"), Item("B"), Item("C")], Alphabetical)
    ensures Distinct([Item("A"), Item("B"), Item("C")])
  {
    assert Alphabetical(Item("A")) == 3;
    assert Alphabetical(Item("B")) == 2;
    assert Alphabetical(Item("C")) == 1;
  }

  lemma ResultsOfAbc(st: State)
    requires st.ranking == [Item("A"), Item("B"), Item("C")]
    ensures Results(st) == [("A", None), ("B", None), ("C", None)]
  {
    var r := Results(st);
    assert r[0] == ("A", None) && r[1] == ("B", None) && r[2] == ("C", None);
  }

  /** Items A, B and C in any shuffled order come out as A, B, C. */
  lemma AlphabeticalScenario(shuffled: seq<Item>)
    requires IsShuffleOf(shuffled, [Item("A"), Item("B"), Item("C")])
    ensures var items := [Item("A"), Item("B"), Item("C")];
            Inv(Load(None, items, shuffled), items)
            && Ordered(Load(None, items, shuffled), Alphabetical)
            && DistinctScores(items, Alphabetical)
    ensures var items := [Item("A"), Item("B"), Item("C")];
            Results(Run(Load(None, items, shuffled), items, Alphabetical))
              == [("A", None), ("B", None), ("C", None)]
  {
    var items := [Item("A"), Item("B"), Item("C")];
    AlphabeticalIsStrict();
    LoadFallbackInv(items, shuffled);
    RunRanksAllItems(items, Alphabetical, shuffled);
    var final := Run(Load(None, items, shuffled), items, Alphabetical);
    SortedUnique(final.ranking, items, Alphabetical);
    ResultsOfAbc(final);
  }

  /** A session with a single item never finishes: the bootstrap offers that
      one item on its own, and submitting it fails on `items[1]` whatever the
      winner, so the state never moves on. */
  lemma OneItemSessionStalls(winner: int)
    ensures var st := Load(None, [Item("A")], [Item("A")]);
            && NextPair(st) == Some([Item("A")])
            && Save(st, Comparison([Item("A")], winner)).Err?
            && (0 <= winner <= 1 ==> Save(st, Comparison([Item("A")], winner)) == Err(Unhandled))
  {
    var st := Load(None, [Item("A")], [Item("A")]);
    assert ItemSet([Item("A")]) == {Item("A")};
  }
}

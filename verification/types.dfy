/** Value shapes shared by both comparison strategies: items, judged comparisons,
    the session record, the error kinds a submission can raise, and the
    sequence helpers that mirror Python's slicing and `list.index`. */
module Types {

  datatype Option<+T> = None | Some(value: T) {
    function GetOr(default: T): T {
      match this
      case Some(v) => v
      case None => default
    }
  }

  datatype Result<+T, +E> = Ok(value: T) | Err(error: E)

  /** An item to be ranked. Items are equal exactly when their names are. */
  datatype Item = Item(name: string)

  /** One judged outcome: the items shown, and the index of the preferred one. */
  datatype Comparison = Comparison(items: seq<Item>, winner: int)

  /** The session record the engine reads; `comparisonData` is the opaque blob. */
  datatype Session = Session(id: string, name: string, comparisonType: string,
                             items: seq<Item>, comparisonData: string)

  /** Why `save_comparison` refused a submission. `Unhandled` stands for a
      Python exception the code does not catch (IndexError, ValueError,
      TypeError) on a submission that passed the three explicit checks. */
  datatype SaveError = DuplicateComparison | InvalidPair | WinnerOutOfRange | Unhandled

  /** Python's `set(items)`. */
  function ItemSet(s: seq<Item>): (r: set<Item>)
    ensures forall x :: x in r <==> x in s
  {
    set x | x in s
  }

  /** The unordered pair `s` has already been judged in `done`. */
  predicate Finished(s: set<Item>, done: seq<Comparison>) {
    exists k :: 0 <= k < |done| && ItemSet(done[k].items) == s
  }

  /** The duplicate-submission test: `set(c.items) in [set(d.items) for d in done]`. */
  predicate Judged(c: Comparison, done: seq<Comparison>) {
    Finished(ItemSet(c.items), done)
  }

  /** No two judged comparisons cover the same unordered pair. */
  predicate DistinctPairs(done: seq<Comparison>) {
    forall i, j :: 0 <= i < j < |done| ==> ItemSet(done[i].items) != ItemSet(done[j].items)
  }

  predicate Distinct<T(==)>(s: seq<T>) {
    forall i, j :: 0 <= i < j < |s| ==> s[i] != s[j]
  }

  /** Python's `s[:k]`. */
  function Take<T>(s: seq<T>, k: nat): (r: seq<T>)
    ensures |r| == if |s| <= k then |s| else k
    ensures r <= s
  {
    if |s| <= k then s else s[..k]
  }

  /** Python's `s[k:]`, which is empty rather than an error when `k > len(s)`. */
  function Drop<T>(s: seq<T>, k: nat): (r: seq<T>)
    ensures |s| <= k ==> r == []
    ensures |s| > k ==> |r| == |s| - k && s == s[..k] + r
  {
    if |s| <= k then [] else s[k..]
  }

  /** Python's `s.index(x)`: the first position of `x`, or None where Python
      raises ValueError. */
  function IndexOf(s: seq<Item>, x: Item): (r: Option<nat>)
    ensures r.None? <==> x !in s
    ensures r.Some? ==> r.value < |s| && s[r.value] == x && x !in s[..r.value]
  {
    if |s| == 0 then None
    else if s[0] == x then Some(0)
    else
      var rest := IndexOf(s[1..], x);
      if rest.None? then None
      else
        assert s[1..][..rest.value] == s[1..rest.value + 1];
        Some(rest.value + 1)
  }

  /** Python's `s.insert(i, x)` for `0 <= i <= len(s)`. */
  function Insert<T>(s: seq<T>, i: nat, x: T): (r: seq<T>)
    requires i <= |s|
    ensures |r| == |s| + 1 && r[i] == x
    ensures r[..i] == s[..i] && r[i + 1..] == s[i..]
    ensures multiset(r) == multiset(s) + multiset{x}
  {
    assert s == s[..i] + s[i..];
    s[..i] + [x] + s[i..]
  }

  lemma DistinctAtMostOnce<T>(t: seq<T>, x: T)
    requires Distinct(t)
    ensures multiset(t)[x] <= 1
  {
    if |t| > 0 {
      assert t == [t[0]] + t[1..];
      DistinctAtMostOnce(t[1..], x);
      if t[0] == x {
        assert x !in t[1..];
      }
    }
  }

  /** A rearrangement of a duplicate-free sequence is duplicate-free. */
  lemma PermutationKeepsDistinct<T>(s: seq<T>, t: seq<T>)
    requires multiset(s) == multiset(t) && Distinct(t)
    ensures Distinct(s)
  {
    forall i, j | 0 <= i < j < |s|
      ensures s[i] != s[j]
    {
      if s[i] == s[j] {
        assert s == s[..j] + s[j..];
        assert s[i] in s[..j];
        assert s[j] in s[j..];
        assert multiset(s)[s[i]] == multiset(s[..j])[s[i]] + multiset(s[j..])[s[i]];
        DistinctAtMostOnce(t, s[i]);
      }
    }
  }

  /** The parts of a duplicate-free concatenation are duplicate-free and disjoint. */
  lemma DistinctSplit<T>(a: seq<T>, b: seq<T>)
    requires Distinct(a + b)
    ensures Distinct(a) && Distinct(b)
    ensures forall x :: x in a ==> x !in b
  {
    forall i, j | 0 <= i < j < |a|
      ensures a[i] != a[j]
    {
      assert (a + b)[i] == a[i] && (a + b)[j] == a[j];
    }
    forall i, j | 0 <= i < j < |b|
      ensures b[i] != b[j]
    {
      assert (a + b)[|a| + i] == b[i] && (a + b)[|a| + j] == b[j];
    }
    forall i, j | 0 <= i < |a| && 0 <= j < |b|
      ensures a[i] != b[j]
    {
      assert (a + b)[i] == a[i] && (a + b)[|a| + j] == b[j];
    }
  }

  /** Appending a comparison whose pair was not yet judged keeps the judged
      pairs distinct, and afterwards that pair counts as judged. */
  lemma AppendUnjudged(done: seq<Comparison>, c: Comparison)
    requires DistinctPairs(done) && !Judged(c, done)
    ensures DistinctPairs(done + [c]) && Judged(c, done + [c])
  {
    var done' := done + [c];
    assert ItemSet(done'[|done|].items) == ItemSet(c.items);
    forall i, j | 0 <= i < j < |done'|
      ensures ItemSet(done'[i].items) != ItemSet(done'[j].items)
    {
      if j == |done| {
        assert done'[i] == done[i];
      } else {
        assert done'[i] == done[i] && done'[j] == done[j];
      }
    }
  }
}

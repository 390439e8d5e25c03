/** Python's `list.sort(key=lambda x: x[1], reverse=True)` on (label, count)
    entries: a stable sort by count, largest first. It is modelled as an
    insertion sort; stability is stated key by key: the entries that share a
    count keep the relative order they had in the input. */
module StableSort {

  /** Entries with count `v`, in order. */
  function WithKey<T>(s: seq<(T, int)>, v: int): seq<(T, int)> {
    if |s| == 0 then []
    else (if s[0].1 == v then [s[0]] else []) + WithKey(s[1..], v)
  }

  /** The sum of the counts. */
  function Total<T>(s: seq<(T, int)>): int {
    if |s| == 0 then 0 else s[0].1 + Total(s[1..])
  }

  ghost predicate NonIncreasing<T>(s: seq<(T, int)>) {
    forall i, j :: 0 <= i < j < |s| ==> s[i].1 >= s[j].1
  }

  lemma ConsProperties<T>(x: (T, int), s: seq<(T, int)>)
    ensures ([x] + s)[0] == x && ([x] + s)[1..] == s
    ensures Total([x] + s) == x.1 + Total(s)
    ensures forall v :: WithKey([x] + s, v) == (if x.1 == v then [x] else []) + WithKey(s, v)
  {
    assert ([x] + s)[1..] == s;
  }

  /** Put `x` before the first entry whose count is not larger than its own. */
  function InsertDesc<T>(x: (T, int), s: seq<(T, int)>): (r: seq<(T, int)>)
    ensures |r| == |s| + 1
    ensures multiset(r) == multiset(s) + multiset{x}
  {
    if |s| == 0 then [x]
    else if s[0].1 <= x.1 then [x] + s
    else
      assert s == [s[0]] + s[1..];
      [s[0]] + InsertDesc(x, s[1..])
  }

  /** Inserting into a sorted sequence keeps it sorted. */
  lemma {:induction false} InsertDescSorted<T>(x: (T, int), s: seq<(T, int)>)
    requires NonIncreasing(s)
    ensures NonIncreasing(InsertDesc(x, s))
  {
    if |s| > 0 && s[0].1 > x.1 {
      var rest := InsertDesc(x, s[1..]);
      InsertDescSorted(x, s[1..]);
      var r := [s[0]] + rest;
      forall k | 0 <= k < |rest|
        ensures s[0].1 >= rest[k].1
      {
        assert rest[k] in multiset(rest);
        assert rest[k] in multiset(s[1..]) || rest[k] == x;
      }
      forall i, j | 0 <= i < j < |r|
        ensures r[i].1 >= r[j].1
      {
        if i > 0 {
          assert r[i] == rest[i - 1] && r[j] == rest[j - 1];
        } else {
          assert r[j] == rest[j - 1];
        }
      }
    }
  }

  /** Inserting adds `x` to the total. */
  lemma {:induction false} InsertDescTotal<T>(x: (T, int), s: seq<(T, int)>)
    ensures Total(InsertDesc(x, s)) == Total(s) + x.1
  {
    if |s| > 0 && s[0].1 > x.1 {
      InsertDescTotal(x, s[1..]);
      ConsProperties(s[0], InsertDesc(x, s[1..]));
      ConsProperties(s[0], s[1..]);
      assert s == [s[0]] + s[1..];
    } else {
      ConsProperties(x, s);
    }
  }

  /** Inserting puts `x` ahead of every entry that shares its count. */
  lemma {:induction false} InsertDescKeys<T>(x: (T, int), s: seq<(T, int)>, v: int)
    ensures WithKey(InsertDesc(x, s), v) == (if x.1 == v then [x] else []) + WithKey(s, v)
  {
    if |s| > 0 && s[0].1 > x.1 {
      var rest := InsertDesc(x, s[1..]);
      InsertDescKeys(x, s[1..], v);
      ConsProperties(s[0], rest);
      ConsProperties(s[0], s[1..]);
      assert s == [s[0]] + s[1..];
    } else {
      ConsProperties(x, s);
    }
  }

  /** The stable descending sort: a permutation, largest count first, equal
      counts in input order, same total. */
  function SortDesc<T>(s: seq<(T, int)>): (r: seq<(T, int)>)
    ensures |r| == |s|
    ensures multiset(r) == multiset(s)
    ensures NonIncreasing(r)
    ensures Total(r) == Total(s)
    ensures forall v :: WithKey(r, v) == WithKey(s, v)
  {
    if |s| == 0 then []
    else
      var rest := SortDesc(s[1..]);
      InsertDescTotal(s[0], rest);
      forall v ensures WithKey(InsertDesc(s[0], rest), v) == (if s[0].1 == v then [s[0]] else []) + WithKey(rest, v) {
        InsertDescKeys(s[0], rest, v);
      }
      InsertDescSorted(s[0], rest);
      ConsProperties(s[0], s[1..]);
      assert s == [s[0]] + s[1..];
      InsertDesc(s[0], rest)
  }
}

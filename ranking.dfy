/**
 * The orderings the resolver sorts by: Python's stable `sorted` with the
 * key `(-score, name)`, that is highest score first and, among equal
 * scores, names in ascending code-point order.
 */
module Ranking {
  import opened Strings

  /** The sort key of a result: its score and the name that breaks ties. */
  datatype Rank = Rank(score: int, name: string)

  /** `(-a.score, a.name) <= (-b.score, b.name)` as Python compares tuples. */
  predicate RankLe(a: Rank, b: Rank)
  {
    a.score > b.score || (a.score == b.score && StrLe(a.name, b.name))
  }

  lemma RankLeTotal(a: Rank, b: Rank)
    ensures RankLe(a, b) || RankLe(b, a)
  {
    StrLeTotal(a.name, b.name);
  }

  lemma RankLeTransitive(a: Rank, b: Rank, c: Rank)
    requires RankLe(a, b) && RankLe(b, c)
    ensures RankLe(a, c)
  {
    if a.score == b.score && b.score == c.score {
      StrLeTransitive(a.name, b.name, c.name);
    }
  }

  lemma RankLeAntisymmetric(a: Rank, b: Rank)
    requires RankLe(a, b) && RankLe(b, a)
    ensures a == b
  {
    StrLeAntisymmetric(a.name, b.name);
  }

  /** Every element ranks no later than every element after it. */
  predicate SortedBy<T>(xs: seq<T>, key: T -> Rank)
  {
    forall i, j :: 0 <= i < j < |xs| ==> RankLe(key(xs[i]), key(xs[j]))
  }

  /** The elements of `xs` whose rank is `r`, in order. */
  function WithRank<T>(xs: seq<T>, key: T -> Rank, r: Rank): seq<T>
  {
    if xs == [] then []
    else (if key(xs[0]) == r then [xs[0]] else []) + WithRank(xs[1..], key, r)
  }

  /** Places `x` before the first element it ranks no later than. */
  function Insert<T>(x: T, ys: seq<T>, key: T -> Rank): seq<T>
  {
    if ys == [] || RankLe(key(x), key(ys[0])) then [x] + ys
    else [ys[0]] + Insert(x, ys[1..], key)
  }

  /** `sorted(xs, key=...)`: a stable sort by rank. */
  function SortBy<T>(xs: seq<T>, key: T -> Rank): seq<T>
  {
    if xs == [] then [] else Insert(xs[0], SortBy(xs[1..], key), key)
  }

  lemma {:induction false} InsertPermutes<T>(x: T, ys: seq<T>, key: T -> Rank)
    ensures multiset(Insert(x, ys, key)) == multiset([x] + ys)
  {
    if ys != [] && !RankLe(key(x), key(ys[0])) {
      InsertPermutes(x, ys[1..], key);
      assert ys == [ys[0]] + ys[1..];
    }
  }

  lemma {:induction false} InsertSorted<T>(x: T, ys: seq<T>, key: T -> Rank)
    requires SortedBy(ys, key)
    ensures SortedBy(Insert(x, ys, key), key)
  {
    var r := Insert(x, ys, key);
    if ys == [] {
    } else if RankLe(key(x), key(ys[0])) {
      forall i, j | 0 <= i < j < |r| ensures RankLe(key(r[i]), key(r[j])) {
        if i == 0 && j > 1 {
          RankLeTransitive(key(x), key(ys[0]), key(ys[j - 1]));
        }
      }
    } else {
      assert SortedBy(ys[1..], key);
      InsertSorted(x, ys[1..], key);
      InsertPermutes(x, ys[1..], key);
      RankLeTotal(key(x), key(ys[0]));
      var rest := Insert(x, ys[1..], key);
      forall j | 0 <= j < |rest| ensures RankLe(key(ys[0]), key(rest[j])) {
        assert rest[j] in multiset([x] + ys[1..]);
        if rest[j] != x {
          assert rest[j] in ys[1..];
        }
      }
    }
  }

  lemma {:induction false} InsertWithRank<T>(x: T, ys: seq<T>, key: T -> Rank, r: Rank)
    requires SortedBy(ys, key)
    ensures WithRank(Insert(x, ys, key), key, r) == WithRank([x] + ys, key, r)
  {
    if ys != [] && !RankLe(key(x), key(ys[0])) {
      assert SortedBy(ys[1..], key);
      InsertWithRank(x, ys[1..], key, r);
      assert ([x] + ys)[1..] == ys;
      assert ([x] + ys[1..])[1..] == ys[1..];
      assert ([ys[0]] + Insert(x, ys[1..], key))[1..] == Insert(x, ys[1..], key);
      if key(x) == r {
        assert key(ys[0]) != r by {
          RankLeTotal(key(x), key(ys[0]));
        }
      }
    } else {
      assert ([x] + ys)[1..] == ys;
    }
  }

  /**
   * The result is sorted by rank, is a permutation of the input, and keeps
   * the input order among elements of equal rank (stability).
   */
  lemma {:induction false} SortByCorrect<T>(xs: seq<T>, key: T -> Rank)
    ensures SortedBy(SortBy(xs, key), key)
    ensures multiset(SortBy(xs, key)) == multiset(xs)
    ensures forall r :: WithRank(SortBy(xs, key), key, r) == WithRank(xs, key, r)
  {
    if xs != [] {
      var rest := SortBy(xs[1..], key);
      SortByCorrect(xs[1..], key);
      InsertSorted(xs[0], rest, key);
      InsertPermutes(xs[0], rest, key);
      assert xs == [xs[0]] + xs[1..];
      forall r ensures WithRank(SortBy(xs, key), key, r) == WithRank(xs, key, r) {
        InsertWithRank(xs[0], rest, key, r);
        assert ([xs[0]] + rest)[1..] == rest;
      }
    }
  }

  /** A sorted sequence is its own sort. */
  lemma {:induction false} SortBySorted<T>(xs: seq<T>, key: T -> Rank)
    requires SortedBy(xs, key)
    ensures SortBy(xs, key) == xs
  {
    if xs != [] {
      assert SortedBy(xs[1..], key);
      SortBySorted(xs[1..], key);
      assert xs == [xs[0]] + xs[1..];
    }
  }
}

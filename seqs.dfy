/**
  Sequence operations the code relies on: `Array.prototype.filter`,
  the stable `Array.prototype.sort` with a comparator, de-duplication
  through a `Set`, and `Array.prototype.slice`.
 */
module Seqs {
  import opened Text

  // ---------------------------------------------------------------------------
  // filter

  /** `rows.filter(keep)`: the rows that pass, in their original order. */
  function Where<T(==,!new)>(rows: seq<T>, keep: T -> bool): (r: seq<T>)
    ensures |r| <= |rows|
    ensures forall x :: x in r <==> x in rows && keep(x)
  {
    if rows == [] then []
    else if keep(rows[0]) then [rows[0]] + Where(rows[1..], keep)
    else Where(rows[1..], keep)
  }

  /** Filtering with a test every row passes changes nothing. */
  lemma {:induction false} WhereAll<T(!new)>(rows: seq<T>, keep: T -> bool)
    requires forall x :: x in rows ==> keep(x)
    ensures Where(rows, keep) == rows
  {
    if rows != [] {
      WhereAll(rows[1..], keep);
    }
  }

  /** Filtering a concatenation filters each part and keeps the parts in order. */
  lemma {:induction false} WhereAppend<T(!new)>(a: seq<T>, b: seq<T>, keep: T -> bool)
    ensures Where(a + b, keep) == Where(a, keep) + Where(b, keep)
    decreases |a|
  {
    if a == [] {
      assert a + b == b;
    } else {
      assert (a + b)[0] == a[0];
      assert (a + b)[1..] == a[1..] + b;
      WhereAppend(a[1..], b, keep);
    }
  }

  /** A single row is kept exactly when it passes. */
  lemma WhereOne<T(!new)>(x: T, keep: T -> bool)
    ensures Where([x], keep) == if keep(x) then [x] else []
  {
    assert [x][1..] == [];
  }

  /** Two tests that agree on every row select the same rows. */
  lemma {:induction false} WhereSame<T(!new)>(rows: seq<T>, p: T -> bool, q: T -> bool)
    requires forall x :: x in rows ==> (p(x) <==> q(x))
    ensures Where(rows, p) == Where(rows, q)
  {
    if rows != [] {
      WhereSame(rows[1..], p, q);
    }
  }

  // ---------------------------------------------------------------------------
  // Distinct elements

  predicate Distinct<T(==)>(s: seq<T>) {
    forall i, j :: 0 <= i < j < |s| ==> s[i] != s[j]
  }

  // ---------------------------------------------------------------------------
  // Stable sort with a comparator

  /** Each element of a sequence without repeats occurs in it at most once. */
  lemma {:induction false} DistinctCountsOnce<T>(s: seq<T>, x: T)
    requires Distinct(s)
    ensures multiset(s)[x] <= 1
    decreases |s|
  {
    if s != [] {
      assert s == [s[0]] + s[1..];
      assert Distinct(s[1..]) by {
        forall i, j | 0 <= i < j < |s[1..]| ensures s[1..][i] != s[1..][j] {
          assert s[1..][i] == s[i + 1] && s[1..][j] == s[j + 1];
        }
      }
      DistinctCountsOnce(s[1..], x);
      if x == s[0] {
        assert x !in s[1..];
      }
    }
  }

  /** A rearrangement of a sequence without repeats has none either. */
  lemma PermutationDistinct<T>(a: seq<T>, b: seq<T>)
    requires multiset(a) == multiset(b) && Distinct(a)
    ensures Distinct(b)
  {
    forall i, j | 0 <= i < j < |b| ensures b[i] != b[j] {
      DistinctCountsOnce(a, b[i]);
      assert b == b[..j] + b[j..];
      assert b[i] in b[..j] && b[j] in b[j..];
      assert multiset(b)[b[i]] == multiset(b[..j])[b[i]] + multiset(b[j..])[b[i]];
    }
  }

  /** `before(a, b)` is "the comparator puts `a` strictly before `b`". */
  ghost predicate StrictOrder<T(!new)>(before: (T, T) -> bool) {
    && (forall a :: !before(a, a))
    && (forall a, b, c :: before(a, b) && before(b, c) ==> before(a, c))
  }

  /** No element is put strictly before one that precedes it. */
  predicate SortedBy<T>(s: seq<T>, before: (T, T) -> bool) {
    forall i, j :: 0 <= i < j < |s| ==> !before(s[j], s[i])
  }

  /** Insert `x` after every element it does not go strictly before. */
  function Insert<T>(x: T, s: seq<T>, before: (T, T) -> bool): (r: seq<T>)
    ensures |r| == |s| + 1
    ensures multiset(r) == multiset(s) + multiset{x}
  {
    if s == [] || before(x, s[0]) then [x] + s
    else
      assert s == [s[0]] + s[1..];
      [s[0]] + Insert(x, s[1..], before)
  }

  /**
    `s.sort(cmp)`, stable: each element is inserted after the earlier ones
    that are not strictly after it.
   */
  function SortBy<T>(s: seq<T>, before: (T, T) -> bool): (r: seq<T>)
    ensures multiset(r) == multiset(s)
  {
    if s == [] then []
    else
      assert s == s[..|s| - 1] + [s[|s| - 1]];
      Insert(s[|s| - 1], SortBy(s[..|s| - 1], before), before)
  }

  lemma {:induction false} InsertSorted<T(!new)>(x: T, s: seq<T>, before: (T, T) -> bool)
    requires StrictOrder(before) && SortedBy(s, before)
    ensures SortedBy(Insert(x, s, before), before)
  {
    if s == [] {
    } else if before(x, s[0]) {
      var first := s[0];
      forall k | 0 <= k < |s| ensures !before(s[k], x) {
        var y := s[k];
        assert before(y, x) ==> before(y, first);
        assert !before(y, first);
      }
      var r := [x] + s;
      assert forall j :: 1 <= j < |r| ==> r[j] == s[j - 1];
    } else {
      InsertSorted(x, s[1..], before);
      var tail := Insert(x, s[1..], before);
      forall y | y in tail ensures !before(y, s[0]) {
        assert y in multiset(tail);
        assert y == x || y in multiset(s[1..]);
      }
      var r := [s[0]] + tail;
      assert forall j :: 1 <= j < |r| ==> r[j] == tail[j - 1] && r[j] in tail;
    }
  }

  /** The sort is a permutation that respects the comparator. */
  lemma {:induction false} SortBySorted<T(!new)>(s: seq<T>, before: (T, T) -> bool)
    requires StrictOrder(before)
    ensures SortedBy(SortBy(s, before), before)
    ensures multiset(SortBy(s, before)) == multiset(s) && |SortBy(s, before)| == |s|
  {
    if s != [] {
      SortBySorted(s[..|s| - 1], before);
      InsertSorted(s[|s| - 1], SortBy(s[..|s| - 1], before), before);
    }
    assert |SortBy(s, before)| == |multiset(SortBy(s, before))|;
  }

  // ---------------------------------------------------------------------------
  // Strings in ascending order (`ORDER BY`, and `.sort()` without a comparator)

  function StringBefore(a: string, b: string): bool {
    Less(a, b)
  }

  lemma StringBeforeStrict()
    ensures StrictOrder(StringBefore)
  {
    forall a ensures !StringBefore(a, a) {
      LessIrreflexive(a);
    }
    forall a, b, c | StringBefore(a, b) && StringBefore(b, c) ensures StringBefore(a, c) {
      LessTransitive(a, b, c);
    }
  }

  predicate StrictlyAscending(s: seq<string>) {
    forall i, j :: 0 <= i < j < |s| ==> Less(s[i], s[j])
  }

  /** Sorted without duplicates is strictly ascending. */
  lemma {:induction false} SortedDistinctAscending(s: seq<string>)
    requires SortedBy(s, StringBefore) && Distinct(s)
    ensures StrictlyAscending(s)
  {
    forall i, j | 0 <= i < j < |s| ensures Less(s[i], s[j]) {
      LessTotal(s[i], s[j]);
      assert !StringBefore(s[j], s[i]);
    }
  }

  /** Inserting a new string keeps a list without duplicates free of them. */
  lemma {:induction false} InsertDistinct(x: string, s: seq<string>)
    requires Distinct(s) && x !in s
    ensures Distinct(Insert(x, s, StringBefore))
  {
    if s == [] || StringBefore(x, s[0]) {
      var r := [x] + s;
      assert forall j :: 1 <= j < |r| ==> r[j] == s[j - 1] && r[j] in s;
    } else {
      InsertDistinct(x, s[1..]);
      var tail := Insert(x, s[1..], StringBefore);
      forall y | y in tail ensures y != s[0] {
        assert y in multiset(tail);
        assert y == x || y in multiset(s[1..]);
      }
      var r := [s[0]] + tail;
      assert forall j :: 1 <= j < |r| ==> r[j] == tail[j - 1] && r[j] in tail;
    }
  }

  // ---------------------------------------------------------------------------
  // slice

  /** `s.slice(start, end)` for non-negative bounds: clamped to the length. */
  function Slice<T>(s: seq<T>, start: nat, end: nat): (r: seq<T>)
    ensures |r| <= |s| && (end <= |s| && start <= end ==> |r| == end - start)
    ensures forall i :: 0 <= i < |r| ==> start + i < |s| && r[i] == s[start + i]
  {
    var e := if end < |s| then end else |s|;
    if start < e then s[start..e] else []
  }
}

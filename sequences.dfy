/** Generic facts about sequences used by the filter and query models. */
module Sequences {

  /** No value occurs twice in `s`. */
  predicate NoDuplicates<T(==)>(s: seq<T>) {
    forall i, j :: 0 <= i < j < |s| ==> s[i] != s[j]
  }

  /** `a` can be obtained from `b` by deleting elements, keeping the relative
      order of the rest (greedy left-to-right matching). */
  predicate IsSubsequence<T(==)>(a: seq<T>, b: seq<T>)
    decreases |b|
  {
    if a == [] then true
    else if b == [] then false
    else if a[0] == b[0] then IsSubsequence(a[1..], b[1..])
    else IsSubsequence(a, b[1..])
  }

  /** A subsequence holds no more copies of any value than the sequence it came from. */
  lemma {:induction false} SubsequenceMultiset<T>(a: seq<T>, b: seq<T>)
    requires IsSubsequence(a, b)
    ensures multiset(a) <= multiset(b)
    decreases |b|
  {
    if a == [] {
    } else if a[0] == b[0] {
      SubsequenceMultiset(a[1..], b[1..]);
      assert a == [a[0]] + a[1..];
      assert b == [b[0]] + b[1..];
    } else {
      SubsequenceMultiset(a, b[1..]);
      assert b == [b[0]] + b[1..];
    }
  }

  /** A sequence has at least as many positions as distinct values. */
  lemma {:induction false} DistinctValuesBound<T>(s: seq<T>)
    ensures |set x | x in s| <= |s|
    ensures NoDuplicates(s) ==> |set x | x in s| == |s|
  {
    if s != [] {
      var rest := s[1..];
      DistinctValuesBound(rest);
      assert (set x | x in s) == {s[0]} + (set x | x in rest) by {
        assert s == [s[0]] + rest;
      }
      if NoDuplicates(s) {
        assert NoDuplicates(rest) by {
          forall i, j | 0 <= i < j < |rest| ensures rest[i] != rest[j] {
            assert rest[i] == s[i + 1] && rest[j] == s[j + 1];
          }
        }
        assert s[0] !in rest by {
          forall k | 0 <= k < |rest| ensures rest[k] != s[0] {
            assert rest[k] == s[k + 1];
          }
        }
      }
    }
  }

  /** In a duplicate-free sequence every value occurs at most once. */
  lemma {:induction false} NoDuplicatesCountOne<T>(s: seq<T>, x: T)
    requires NoDuplicates(s)
    ensures multiset(s)[x] <= 1
    decreases |s|
  {
    if s != [] {
      assert s == [s[0]] + s[1..];
      assert NoDuplicates(s[1..]) by {
        forall i, j | 0 <= i < j < |s[1..]| ensures s[1..][i] != s[1..][j] {
          assert s[1..][i] == s[i + 1] && s[1..][j] == s[j + 1];
        }
      }
      NoDuplicatesCountOne(s[1..], x);
      if s[0] == x {
        assert x !in s[1..] by {
          forall k | 0 <= k < |s[1..]| ensures s[1..][k] != x {
            assert s[1..][k] == s[k + 1];
          }
        }
      }
    }
  }

  /** A duplicate-free sequence whose values all come from `universe` is no
      longer than `universe`. */
  lemma SubsetLengthBound<T>(s: seq<T>, universe: seq<T>)
    requires NoDuplicates(s)
    requires forall x :: x in s ==> x in universe
    ensures |s| <= |universe|
  {
    DistinctValuesBound(s);
    DistinctValuesBound(universe);
    var used, all := set x | x in s, set x | x in universe;
    assert used <= all;
    assert all == used + (all - used);
    assert used * (all - used) == {};
  }

  /** Dropping the head of `s` keeps a subsequence of the tail a subsequence of `s`. */
  lemma {:induction false} SkipHeadKeepsSubsequence<T>(r: seq<T>, s: seq<T>)
    requires s != []
    requires IsSubsequence(r, s[1..])
    ensures IsSubsequence(r, s)
    decreases |s|
  {
    if r != [] && r[0] == s[0] {
      if |s| > 1 {
        SubsequenceTail(r, s[1..]);
        if r[1..] != [] {
          SkipHeadKeepsSubsequence(r[1..], s[1..]);
        }
      } else {
        assert false;
      }
    }
  }

  /** If `r` is a subsequence of `s`, so is `r` without its head. */
  lemma {:induction false} SubsequenceTail<T>(r: seq<T>, s: seq<T>)
    requires r != []
    requires IsSubsequence(r, s)
    ensures IsSubsequence(r[1..], s[1..])
    decreases |s|
  {
    if r[0] != s[0] {
      if r[1..] != [] {
        SubsequenceTail(r, s[1..]);
        SkipHeadKeepsSubsequence(r[1..], s[1..]);
      }
    }
  }

  /** A subsequence of a duplicate-free sequence is duplicate-free. */
  lemma {:induction false} SubsequenceNoDuplicates<T>(a: seq<T>, b: seq<T>)
    requires IsSubsequence(a, b)
    requires NoDuplicates(b)
    ensures NoDuplicates(a)
    decreases |b|
  {
    if a != [] {
      assert NoDuplicates(b[1..]) by {
        forall i, j | 0 <= i < j < |b[1..]| ensures b[1..][i] != b[1..][j] {
          assert b[1..][i] == b[i + 1] && b[1..][j] == b[j + 1];
        }
      }
      if a[0] == b[0] {
        SubsequenceNoDuplicates(a[1..], b[1..]);
        SubsequenceMultiset(a[1..], b[1..]);
        assert b[0] !in b[1..] by {
          forall k | 0 <= k < |b[1..]| ensures b[1..][k] != b[0] {
            assert b[1..][k] == b[k + 1];
          }
        }
        assert a[0] !in multiset(a[1..]);
        forall i, j | 0 <= i < j < |a| ensures a[i] != a[j] {
          assert a[j] == a[1..][j - 1];
          if i > 0 {
            assert a[i] == a[1..][i - 1];
          } else {
            assert a[j] in a[1..];
          }
        }
      } else {
        SubsequenceNoDuplicates(a, b[1..]);
      }
    }
  }

  /** Regrouping four concatenated parts from the left to the right. */
  lemma Reassociate<T>(a: seq<T>, b: seq<T>, c: seq<T>, d: seq<T>)
    ensures a + b + c + d == a + (b + (c + d))
  {
  }

  /** Concatenation with a non-empty left part, taken apart at its head. */
  lemma ConsConcat<T>(s: seq<T>, t: seq<T>)
    requires s != []
    ensures s + t == [s[0]] + (s[1..] + t)
  {
    assert s == [s[0]] + s[1..];
  }

  /** Concatenation with an empty left part. */
  lemma EmptyConcat<T>(s: seq<T>, t: seq<T>)
    requires s == []
    ensures s + t == t
  {
  }

  /** `[x]` when `present`, nothing otherwise. */
  function OneIf<T>(present: bool, x: T): (r: seq<T>)
    ensures |r| <= 1
  {
    if present then [x] else []
  }

  /** An optional element alone is a subsequence of that element. */
  lemma OptionalOnly<T>(present: bool, x: T)
    ensures IsSubsequence(OneIf(present, x), [x])
  {
  }

  /** An optional element in front keeps a subsequence of `order` a
      subsequence of `order` with that element in front. */
  lemma OptionalHead<T>(present: bool, x: T, rest: seq<T>, order: seq<T>)
    requires IsSubsequence(rest, order)
    ensures IsSubsequence(OneIf(present, x) + rest, [x] + order)
  {
    var s := [x] + order;
    assert s[0] == x && s[1..] == order;
    if present {
      var a := [x] + rest;
      assert a[0] == x && a[1..] == rest;
    } else {
      assert [] + rest == rest;
      if rest != [] {
        SkipHeadKeepsSubsequence(rest, s);
      }
    }
  }
}

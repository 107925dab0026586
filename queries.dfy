/**
 * The relational queries the handlers issue, as functions on sequences of rows:
 * a WHERE clause (Filter), `scalar_one_or_none` on its result, ORDER BY ... DESC
 * (SortDesc) and OFFSET/LIMIT (Page).
 */
module Queries {
  /** The rows of `s` that satisfy `p`, in their original order. */
  function Filter<T(!new)>(s: seq<T>, p: T -> bool): (r: seq<T>)
    ensures |r| <= |s|
    ensures forall x :: x in r <==> x in s && p(x)
    ensures multiset(r) <= multiset(s)
  {
    if s == [] then []
    else
      assert s == [s[0]] + s[1..];
      if p(s[0]) then [s[0]] + Filter(s[1..], p) else Filter(s[1..], p)
  }

  /** No element satisfies `p`, so the WHERE clause matches nothing. */
  lemma {:induction false} FilterNone<T(!new)>(s: seq<T>, p: T -> bool)
    requires forall x :: x in s ==> !p(x)
    ensures Filter(s, p) == []
  {
    if s != [] {
      assert s[0] in s;
      FilterNone(s[1..], p);
    }
  }

  /** The position of an element of `s`. */
  lemma IndexOf<T>(s: seq<T>, x: T) returns (i: nat)
    requires x in s
    ensures i < |s| && s[i] == x
  {
    i :| 0 <= i < |s| && s[i] == x;
  }

  /** A WHERE clause matches nothing exactly when no row satisfies its condition. */
  lemma FilterEmpty<T(!new)>(s: seq<T>, p: T -> bool)
    ensures Filter(s, p) == [] <==> forall i :: 0 <= i < |s| ==> !p(s[i])
  {
    if forall i :: 0 <= i < |s| ==> !p(s[i]) {
      forall x | x in s ensures !p(x) {
        var i := IndexOf(s, x);
      }
      FilterNone(s, p);
    } else {
      var i :| 0 <= i < |s| && p(s[i]);
      assert s[i] in Filter(s, p);
    }
  }

  /** Two different positions of `s` satisfy `p`, so the WHERE clause matches at least two rows. */
  lemma {:induction false} FilterAtLeastTwo<T(!new)>(s: seq<T>, p: T -> bool, i: nat, j: nat)
    requires i < j < |s| && p(s[i]) && p(s[j])
    ensures |Filter(s, p)| >= 2
  {
    if i == 0 {
      assert s[j] in s[1..];
      assert s[j] in Filter(s[1..], p);
    } else {
      FilterAtLeastTwo(s[1..], p, i - 1, j - 1);
    }
  }

  /** At most one position of `s` satisfies `p`, so the WHERE clause matches at most one row. */
  lemma {:induction false} FilterAtMostOne<T(!new)>(s: seq<T>, p: T -> bool)
    requires forall i, j :: 0 <= i < j < |s| && p(s[i]) ==> !p(s[j])
    ensures |Filter(s, p)| <= 1
  {
    if s != [] {
      var t := s[1..];
      assert forall i, j :: 0 <= i < j < |t| && p(t[i]) ==> !p(t[j]) by {
        forall i, j | 0 <= i < j < |t| && p(t[i]) ensures !p(t[j]) {
          assert t[i] == s[i + 1] && t[j] == s[j + 1];
        }
      }
      FilterAtMostOne(t, p);
      if p(s[0]) {
        assert forall x :: x in t ==> !p(x) by {
          forall x | x in t ensures !p(x) {
            var k :| 0 <= k < |t| && t[k] == x;
            assert s[k + 1] == x;
          }
        }
        FilterNone(t, p);
      }
    }
  }

  /** When position `i` is the only one satisfying `p`, the WHERE clause returns that element alone. */
  lemma FilterOnly<T(!new)>(s: seq<T>, p: T -> bool, i: nat)
    requires i < |s| && p(s[i])
    requires forall j :: 0 <= j < |s| && j != i ==> !p(s[j])
    ensures Filter(s, p) == [s[i]]
  {
    var f := Filter(s, p);
    forall a, b | 0 <= a < b < |s| && p(s[a]) ensures !p(s[b]) {
      assert a == i;
      assert b != i;
    }
    FilterAtMostOne(s, p);
    assert s[i] in f;
    assert f[0] in f;
    var k := IndexOf(s, f[0]);
    assert k == i;
  }

  /** Every two elements of `s`, taken in order, are related by `ok`. */
  predicate Pairwise<T>(s: seq<T>, ok: (T, T) -> bool)
  {
    forall i, j :: 0 <= i < j < |s| ==> ok(s[i], s[j])
  }

  /** A WHERE clause keeps any pairwise property of the rows it selects from. */
  lemma {:induction false} FilterPairwise<T(!new)>(s: seq<T>, p: T -> bool, ok: (T, T) -> bool)
    requires Pairwise(s, ok)
    ensures Pairwise(Filter(s, p), ok)
  {
    if s != [] {
      var t := s[1..];
      assert Pairwise(t, ok) by {
        forall i, j | 0 <= i < j < |t| ensures ok(t[i], t[j]) {
          assert t[i] == s[i + 1] && t[j] == s[j + 1];
        }
      }
      FilterPairwise(t, p, ok);
      if p(s[0]) {
        var f := Filter(t, p);
        var r := [s[0]] + f;
        forall i, j | 0 <= i < j < |r| ensures ok(r[i], r[j]) {
          if i == 0 {
            assert r[j] == f[j - 1];
            assert r[j] in t;
            var k :| 0 <= k < |t| && t[k] == r[j];
            assert s[k + 1] == r[j];
          } else {
            assert r[i] == f[i - 1] && r[j] == f[j - 1];
          }
        }
      }
    }
  }

  /** `COUNT(*) ... WHERE p`: the number of elements of `s` satisfying `p`, counted one by one. */
  function CountWhere<T>(s: seq<T>, p: T -> bool): nat
  {
    if s == [] then 0 else (if p(s[0]) then 1 else 0) + CountWhere(s[1..], p)
  }

  /** The rows a WHERE clause returns are as many as COUNT over the same clause reports. */
  lemma {:induction false} FilterCount<T(!new)>(s: seq<T>, p: T -> bool)
    ensures |Filter(s, p)| == CountWhere(s, p)
  {
    if s != [] {
      FilterCount(s[1..], p);
    }
  }

  /** What `scalar_one_or_none()` makes of a query result. */
  datatype OneOrNone<T> = NoRow | OneRow(row: T) | MultipleRows

  function ScalarOneOrNone<T>(rows: seq<T>): (r: OneOrNone<T>)
    ensures r.NoRow? <==> rows == []
    ensures r.OneRow? <==> |rows| == 1
    ensures r.OneRow? ==> rows == [r.row]
    ensures r.MultipleRows? <==> |rows| >= 2
  {
    if |rows| == 0 then NoRow
    else if |rows| == 1 then OneRow(rows[0])
    else MultipleRows
  }

  /** `s` is ordered by `key`, largest first. */
  predicate SortedDesc<T>(s: seq<T>, key: T -> int)
  {
    forall i, j :: 0 <= i < j < |s| ==> key(s[i]) >= key(s[j])
  }

  /** Puts `x` before the first element whose key is not larger than its own. */
  function InsertDesc<T>(x: T, s: seq<T>, key: T -> int): (r: seq<T>)
    ensures multiset(r) == multiset(s) + multiset{x}
    ensures |r| == |s| + 1
  {
    if s == [] || key(x) >= key(s[0]) then [x] + s
    else
      assert s == [s[0]] + s[1..];
      [s[0]] + InsertDesc(x, s[1..], key)
  }

  /** Inserting into a sorted sequence keeps it sorted; the new head is `x` or the old one. */
  lemma {:induction false} InsertDescSorted<T>(x: T, s: seq<T>, key: T -> int)
    requires SortedDesc(s, key)
    ensures SortedDesc(InsertDesc(x, s, key), key)
    ensures InsertDesc(x, s, key)[0] == x || (s != [] && InsertDesc(x, s, key)[0] == s[0])
  {
    if s == [] || key(x) >= key(s[0]) {
    } else {
      var rest := InsertDesc(x, s[1..], key);
      InsertDescSorted(x, s[1..], key);
      var r := InsertDesc(x, s, key);
      assert r == [s[0]] + rest;
      assert key(s[0]) >= key(rest[0]);
      forall i, j | 0 <= i < j < |r| ensures key(r[i]) >= key(r[j]) {
        if i == 0 {
          assert r[j] == rest[j - 1];
          if j > 1 { assert key(rest[0]) >= key(rest[j - 1]); }
        } else {
          assert r[i] == rest[i - 1] && r[j] == rest[j - 1];
        }
      }
    }
  }

  /** ORDER BY key DESC: a permutation of `s`, ordered largest first. */
  function SortDesc<T>(s: seq<T>, key: T -> int): (r: seq<T>)
    ensures SortedDesc(r, key)
    ensures multiset(r) == multiset(s)
    ensures |r| == |s|
  {
    if s == [] then []
    else
      assert s == [s[0]] + s[1..];
      var rest := SortDesc(s[1..], key);
      InsertDescSorted(s[0], rest, key);
      InsertDesc(s[0], rest, key)
  }

  function Min(a: int, b: int): int { if a <= b then a else b }

  /** OFFSET offset LIMIT limit. */
  function Page<T>(s: seq<T>, offset: nat, limit: nat): (r: seq<T>)
    ensures |r| <= limit
    ensures offset >= |s| ==> r == []
    ensures offset < |s| ==> |r| == Min(limit, |s| - offset)
    ensures forall k :: 0 <= k < |r| ==> offset + k < |s| && r[k] == s[offset + k]
  {
    if offset >= |s| then [] else s[offset..Min(offset + limit, |s|)]
  }

  /** A window of a sorted sequence is sorted, and holds only elements of the sequence. */
  lemma PageOfSorted<T>(s: seq<T>, offset: nat, limit: nat, key: T -> int)
    requires SortedDesc(s, key)
    ensures SortedDesc(Page(s, offset, limit), key)
    ensures forall x :: x in Page(s, offset, limit) ==> x in s
  {
    var r := Page(s, offset, limit);
    forall i, j | 0 <= i < j < |r| ensures key(r[i]) >= key(r[j]) {
      assert r[i] == s[offset + i] && r[j] == s[offset + j];
    }
  }

  /**
   * Paging by a fixed size reaches every element: element k is entry `j` of page `page`
   * (counting from 1), where `k == (page - 1) * limit + j`.
   */
  lemma PageCovers<T>(s: seq<T>, limit: nat, k: nat) returns (page: nat, offset: nat, j: nat)
    requires 1 <= limit && k < |s|
    ensures page >= 1 && offset == (page - 1) * limit && j < limit && offset + j == k
    ensures j < |Page(s, offset, limit)| && Page(s, offset, limit)[j] == s[k]
  {
    page, offset, j := k / limit + 1, (k / limit) * limit, k % limit;
    assert offset + j == k;
  }
}

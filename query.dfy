/**
 * The query shapes the pages ask of the hosted store, evaluated on an in-memory table:
 * row filters, single-row lookup, newest-first ordering and row-range pagination.
 */
module Query {

  import opened Records

  /** Rows of `s` that satisfy `p`, in table order. */
  function Filter<T(!new)>(s: seq<T>, p: T -> bool): (r: seq<T>)
    ensures |r| <= |s|
    ensures forall x :: x in r <==> x in s && p(x)
    ensures forall i :: 0 <= i < |r| ==> p(r[i])
  {
    if s == [] then []
    else (if p(s[0]) then [s[0]] else []) + Filter(s[1..], p)
  }

  /** Filtering keeps every passing row exactly as often as the table has it, and no other row. */
  lemma {:induction false} FilterCounts<T(!new)>(s: seq<T>, p: T -> bool)
    ensures forall x :: multiset(Filter(s, p))[x] == if p(x) then multiset(s)[x] else 0
  {
    if s != [] {
      FilterCounts(s[1..], p);
      assert s == [s[0]] + s[1..];
    }
  }

  lemma {:induction false} FilterAppend<T(!new)>(a: seq<T>, b: seq<T>, p: T -> bool)
    ensures Filter(a + b, p) == Filter(a, p) + Filter(b, p)
  {
    if a == [] {
      assert a + b == b;
    } else {
      assert (a + b)[1..] == a[1..] + b;
      FilterAppend(a[1..], b, p);
    }
  }

  /** When every row passes, filtering is the identity. */
  lemma {:induction false} FilterAll<T(!new)>(s: seq<T>, p: T -> bool)
    requires forall x :: x in s ==> p(x)
    ensures Filter(s, p) == s
  {
    if s != [] {
      assert forall x :: x in s[1..] ==> x in s;
      FilterAll(s[1..], p);
    }
  }

  function Count<T(!new)>(s: seq<T>, p: T -> bool): (n: nat)
    ensures n == |Filter(s, p)|
  {
    if s == [] then 0
    else (if p(s[0]) then 1 else 0) + Count(s[1..], p)
  }

  /** A filter that rejects exactly the row at index `i` removes that row and keeps the others in order. */
  lemma {:induction false} FilterDropsOne<T(!new)>(s: seq<T>, i: nat, p: T -> bool)
    requires i < |s|
    requires forall j :: 0 <= j < |s| ==> (p(s[j]) <==> j != i)
    ensures Filter(s, p) == s[..i] + s[i + 1..]
  {
    if i == 0 {
      assert forall j :: 0 <= j < |s[1..]| ==> p(s[1..][j]);
      FilterAll(s[1..], p);
    } else {
      FilterDropsOne(s[1..], i - 1, p);
      assert s[..i] + s[i + 1..] == [s[0]] + (s[1..][..i - 1] + s[1..][i..]);
    }
  }

  /** Leaving out the row at index `i` lowers a count by one exactly when that row passes. */
  lemma {:induction false} CountWithoutOne<T(!new)>(s: seq<T>, i: nat, p: T -> bool)
    requires i < |s|
    ensures Count(s[..i] + s[i + 1..], p) == Count(s, p) - (if p(s[i]) then 1 else 0)
  {
    if i == 0 {
      assert s[..0] + s[1..] == s[1..];
    } else {
      CountWithoutOne(s[1..], i - 1, p);
      var rest := s[1..][..i - 1] + s[1..][i..];
      assert s[..i] + s[i + 1..] == [s[0]] + rest;
      assert ([s[0]] + rest)[1..] == rest;
    }
  }

  /**
   * A single-row lookup: the first row that satisfies `p`, or nothing exactly when no row
   * does.
   */
  function FindFirst<T(==)>(s: seq<T>, p: T -> bool): (r: Option<T>)
    ensures r.Some? ==> r.value in s && p(r.value)
    ensures r.Some? ==> exists i :: 0 <= i < |s| && s[i] == r.value && (forall j :: 0 <= j < i ==> !p(s[j]))
    ensures r.None? ==> forall i :: 0 <= i < |s| ==> !p(s[i])
  {
    if s == [] then None
    else if p(s[0]) then
      assert s[0] == s[0];
      Some(s[0])
    else
      var found := FindFirst(s[1..], p);
      if found.Some? then
        var i :| 0 <= i < |s[1..]| && s[1..][i] == found.value && forall j :: 0 <= j < i ==> !p(s[1..][j]);
        assert s[i + 1] == found.value;
        assert forall j :: 0 <= j < i + 1 ==> !p(s[j]) by {
          forall j | 0 <= j < i + 1 ensures !p(s[j]) {
            if j > 0 { assert s[j] == s[1..][j - 1]; }
          }
        }
        found
      else
        assert forall i :: 0 <= i < |s| ==> !p(s[i]) by {
          forall i | 0 <= i < |s| ensures !p(s[i]) {
            if i > 0 { assert s[i] == s[1..][i - 1]; }
          }
        }
        found
  }

  /** Every two rows of `s`, taken in table order, are related by `ok`. */
  ghost predicate Pairwise<T>(s: seq<T>, ok: (T, T) -> bool)
  {
    forall i, j :: 0 <= i < j < |s| ==> ok(s[i], s[j])
  }

  /** Removing rows never breaks a pairwise property. */
  lemma {:induction false} FilterPairwise<T(!new)>(s: seq<T>, p: T -> bool, ok: (T, T) -> bool)
    requires Pairwise(s, ok)
    ensures Pairwise(Filter(s, p), ok)
  {
    if s != [] {
      var rest := s[1..];
      assert Pairwise(rest, ok) by {
        forall i, j | 0 <= i < j < |rest| ensures ok(rest[i], rest[j]) {
          assert rest[i] == s[i + 1] && rest[j] == s[j + 1];
        }
      }
      FilterPairwise(rest, p, ok);
      var tail := Filter(rest, p);
      if p(s[0]) {
        forall y | y in tail ensures ok(s[0], y) {
          var k :| 0 <= k < |rest| && rest[k] == y;
          assert s[k + 1] == y;
        }
        ConsPairwise(s[0], tail, ok);
      }
    }
  }

  /** A row put in front keeps a pairwise property when it is related to every later row. */
  lemma ConsPairwise<T>(h: T, t: seq<T>, ok: (T, T) -> bool)
    requires Pairwise(t, ok)
    requires forall y :: y in t ==> ok(h, y)
    ensures Pairwise([h] + t, ok)
  {
    var r := [h] + t;
    forall i, j | 0 <= i < j < |r| ensures ok(r[i], r[j]) {
      assert r[j] == t[j - 1];
      if i > 0 {
        assert r[i] == t[i - 1];
      }
    }
  }

  /** A row added at the end keeps a pairwise property when it is related to every earlier row. */
  lemma AppendPairwise<T>(s: seq<T>, x: T, ok: (T, T) -> bool)
    requires Pairwise(s, ok)
    requires forall i :: 0 <= i < |s| ==> ok(s[i], x)
    ensures Pairwise(s + [x], ok)
  {
    var r := s + [x];
    forall i, j | 0 <= i < j < |r| ensures ok(r[i], r[j]) {
      if j < |s| {
        assert r[i] == s[i] && r[j] == s[j];
      } else {
        assert r[i] == s[i] && r[j] == x;
      }
    }
  }

  /** `s` is ordered by `key`, largest first (newest first when the key is a creation time). */
  ghost predicate SortedDesc<T>(s: seq<T>, key: T -> int)
  {
    forall i, j :: 0 <= i < j < |s| ==> key(s[i]) >= key(s[j])
  }

  lemma ConsSorted<T>(h: T, t: seq<T>, key: T -> int)
    requires SortedDesc(t, key)
    requires forall y :: y in t ==> key(y) <= key(h)
    ensures SortedDesc([h] + t, key)
  {
    var r := [h] + t;
    forall i, j | 0 <= i < j < |r| ensures key(r[i]) >= key(r[j]) {
      if i > 0 {
        assert r[i] == t[i - 1] && r[j] == t[j - 1];
      } else {
        assert r[j] in t;
      }
    }
  }

  function InsertDesc<T(!new)>(x: T, s: seq<T>, key: T -> int): (r: seq<T>)
    requires SortedDesc(s, key)
    ensures SortedDesc(r, key)
    ensures multiset(r) == multiset(s) + multiset{x}
  {
    if s == [] then [x]
    else if key(x) >= key(s[0]) then
      assert forall y :: y in s ==> key(y) <= key(s[0]) by {
        forall y | y in s ensures key(y) <= key(s[0]) {
          var k :| 0 <= k < |s| && s[k] == y;
        }
      }
      ConsSorted(x, s, key);
      [x] + s
    else
      var rest := s[1..];
      assert s == [s[0]] + rest;
      assert SortedDesc(rest, key);
      var tail := InsertDesc(x, rest, key);
      assert forall y :: y in tail ==> key(y) <= key(s[0]) by {
        forall y | y in tail ensures key(y) <= key(s[0]) {
          assert y in multiset(tail);
          if y != x {
            assert y in multiset(rest);
            var k :| 0 <= k < |rest| && rest[k] == y;
            assert s[k + 1] == y;
          }
        }
      }
      ConsSorted(s[0], tail, key);
      [s[0]] + tail
  }

  /** Descending order by `key`: the same rows, largest key (newest) first. */
  function SortDesc<T(!new)>(s: seq<T>, key: T -> int): (r: seq<T>)
    ensures SortedDesc(r, key)
    ensures multiset(r) == multiset(s)
    ensures |r| == |s|
  {
    if s == [] then []
    else
      assert s == [s[0]] + s[1..];
      InsertDesc(s[0], SortDesc(s[1..], key), key)
  }

  /**
   * A row range: rows `from` to `to` inclusive of the ordered result, cut short
   * where the result ends (a range past the end is empty, not an error).
   */
  function Range<T>(s: seq<T>, from: nat, to: int): (r: seq<T>)
    requires from <= to + 1
    ensures |r| == (if from >= |s| then 0 else if to + 1 <= |s| then to + 1 - from else |s| - from)
    ensures forall k :: 0 <= k < |r| ==> r[k] == s[from + k]
  {
    if from >= |s| then []
    else if to + 1 <= |s| then s[from..to + 1]
    else s[from..]
  }
}

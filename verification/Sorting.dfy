/** `ORDER BY` on a text column. Rows that tie keep their table order, which is the order of their ids. */
module Sorting {
  import opened Prelude
  import opened Rfc3339

  predicate Ordered<T>(s: seq<T>, key: T -> string) {
    forall i, j :: 0 <= i < j < |s| ==> TextAtMost(key(s[i]), key(s[j]))
  }

  function InsertBy<T>(s: seq<T>, x: T, key: T -> string): seq<T> {
    if s == [] then [x]
    else
      var last := s[|s| - 1];
      if TextAtMost(key(last), key(x)) then s + [x] else InsertBy(s[..|s| - 1], x, key) + [last]
  }

  function SortBy<T>(s: seq<T>, key: T -> string): seq<T> {
    if s == [] then [] else InsertBy(SortBy(s[..|s| - 1], key), s[|s| - 1], key)
  }

  lemma {:induction false} InsertPermutes<T>(s: seq<T>, x: T, key: T -> string)
    ensures multiset(InsertBy(s, x, key)) == multiset(s) + multiset{x}
  {
    if s == [] {
    } else {
      InsertPermutes(s[..|s| - 1], x, key);
      assert s == s[..|s| - 1] + [s[|s| - 1]];
    }
  }

  lemma {:induction false} SortPermutes<T>(s: seq<T>, key: T -> string)
    ensures multiset(SortBy(s, key)) == multiset(s)
  {
    if s == [] {
    } else {
      var front, last := s[..|s| - 1], s[|s| - 1];
      assert multiset(s) == multiset(front) + multiset{last} by {
        assert s == front + [last];
      }
      SortPermutes(front, key);
      InsertPermutes(SortBy(front, key), last, key);
    }
  }

  lemma SortMembers<T(!new)>(s: seq<T>, key: T -> string)
    ensures forall x :: x in SortBy(s, key) <==> x in s
  {
    SortPermutes(s, key);
    assert forall x :: x in SortBy(s, key) <==> x in multiset(SortBy(s, key));
    assert forall x :: x in s <==> x in multiset(s);
  }

  lemma TextAtMostTransitive(a: string, b: string, c: string)
    requires TextAtMost(a, b) && TextAtMost(b, c)
    ensures TextAtMost(a, c)
  {
    if a != b && b != c {
      TextLessTransitive(a, b, c);
    }
  }

  lemma {:induction false} InsertKeepsOrder<T>(s: seq<T>, x: T, key: T -> string)
    requires Ordered(s, key)
    ensures Ordered(InsertBy(s, x, key), key)
  {
    if s == [] {
    } else {
      var front, last := s[..|s| - 1], s[|s| - 1];
      if TextAtMost(key(last), key(x)) {
        forall i | 0 <= i < |s|
          ensures TextAtMost(key(s[i]), key(x))
        {
          TextAtMostTransitive(key(s[i]), key(last), key(x));
        }
      } else {
        TextLessTotal(key(last), key(x));
        InsertKeepsOrder(front, x, key);
        InsertPermutes(front, x, key);
        var r := InsertBy(front, x, key);
        forall i | 0 <= i < |r|
          ensures TextAtMost(key(r[i]), key(last))
        {
          assert r[i] in multiset(r);
          assert r[i] in front || r[i] == x;
        }
      }
    }
  }

  lemma {:induction false} SortOrders<T>(s: seq<T>, key: T -> string)
    ensures Ordered(SortBy(s, key), key)
  {
    if s == [] {
    } else {
      SortOrders(s[..|s| - 1], key);
      InsertKeepsOrder(SortBy(s[..|s| - 1], key), s[|s| - 1], key);
    }
  }

  lemma {:induction false} FilterInsert<T(!new)>(s: seq<T>, x: T, key: T -> string, keep: T -> bool)
    requires Ordered(s, key)
    ensures Filter(InsertBy(s, x, key), keep)
         == if keep(x) then InsertBy(Filter(s, keep), x, key) else Filter(s, keep)
  {
    if s == [] {
    } else {
      var front, last := s[..|s| - 1], s[|s| - 1];
      if TextAtMost(key(last), key(x)) {
        assert (s + [x])[..|s|] == s;
        var kept := Filter(s, keep);
        if kept != [] {
          var k := kept[|kept| - 1];
          assert k in s;
          var i :| 0 <= i < |s| && s[i] == k;
          TextAtMostTransitive(key(k), key(last), key(x));
        }
      } else {
        FilterInsert(front, x, key, keep);
        var r := InsertBy(front, x, key);
        assert (r + [last])[..|r|] == r;
        assert (Filter(front, keep) + [last])[..|Filter(front, keep)|] == Filter(front, keep);
      }
    }
  }

  /** Selecting from the sorted rows is sorting the selected rows: sorting never changes the order of rows that tie,
      and what is dropped does not disturb what is kept. */
  lemma {:induction false} FilterSort<T(!new)>(s: seq<T>, key: T -> string, keep: T -> bool)
    ensures Filter(SortBy(s, key), keep) == SortBy(Filter(s, keep), key)
  {
    if s == [] {
    } else {
      var front, last := s[..|s| - 1], s[|s| - 1];
      FilterSort(front, key, keep);
      SortOrders(front, key);
      FilterInsert(SortBy(front, key), last, key, keep);
      var kept := Filter(front, keep);
      assert (kept + [last])[..|kept|] == kept;
    }
  }

  /** The rows whose key is before a bound are a prefix of the ordered rows. */
  lemma {:induction false} BelowIsPrefix<T(!new)>(s: seq<T>, key: T -> string, bound: string, below: T -> bool)
    requires Ordered(s, key)
    requires forall x :: below(x) <==> TextLess(key(x), bound)
    ensures Filter(s, below) <= s
  {
    if s == [] {
    } else {
      var front, last := s[..|s| - 1], s[|s| - 1];
      BelowIsPrefix(front, key, bound, below);
      if below(last) {
        forall i | 0 <= i < |s|
          ensures below(s[i])
        {
          if i < |s| - 1 && key(s[i]) != key(last) {
            TextLessTransitive(key(s[i]), key(last), bound);
          }
        }
        FilterAll(s, below);
      }
    }
  }

  lemma {:induction false} FilterAll<T(!new)>(s: seq<T>, keep: T -> bool)
    requires forall i :: 0 <= i < |s| ==> keep(s[i])
    ensures Filter(s, keep) == s
  {
    if s == [] {
    } else {
      FilterAll(s[..|s| - 1], keep);
      assert s == s[..|s| - 1] + [s[|s| - 1]];
    }
  }
}

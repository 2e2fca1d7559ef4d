/** Small shared vocabulary: optional values, error results and sequence filtering. */
module Prelude {

  datatype Option<+T> = None | Some(value: T)

  datatype Result<+T, +E> = Ok(value: T) | Err(error: E)

  /** The elements of `s` that satisfy `keep`, in order. */
  function Filter<T(!new)>(s: seq<T>, keep: T -> bool): (r: seq<T>)
    ensures forall x :: x in r <==> x in s && keep(x)
    ensures |r| <= |s|
  {
    if s == [] then []
    else
      var rest := Filter(s[..|s| - 1], keep);
      var last := s[|s| - 1];
      assert s == s[..|s| - 1] + [last];
      if keep(last) then rest + [last] else rest
  }

  function Count<T(!new)>(s: seq<T>, keep: T -> bool): (n: nat)
    ensures n <= |s|
  {
    |Filter(s, keep)|
  }

  lemma {:induction false} FilterConcat<T(!new)>(s: seq<T>, t: seq<T>, keep: T -> bool)
    ensures Filter(s + t, keep) == Filter(s, keep) + Filter(t, keep)
  {
    if t == [] {
      assert s + t == s;
    } else {
      var n := |t| - 1;
      assert (s + t)[..|s + t| - 1] == s + t[..n];
      FilterConcat(s, t[..n], keep);
    }
  }

  /** Filtering two sequences that agree position by position, on what is kept and on the kept value. */
  lemma {:induction false} FilterAgrees<T(!new)>(s: seq<T>, t: seq<T>, keep: T -> bool)
    requires |s| == |t|
    requires forall i :: 0 <= i < |s| ==> (keep(s[i]) || keep(t[i]) ==> s[i] == t[i])
    ensures Filter(s, keep) == Filter(t, keep)
  {
    if s == [] {
    } else {
      FilterAgrees(s[..|s| - 1], t[..|t| - 1], keep);
    }
  }

  lemma {:induction false} FilterNone<T(!new)>(s: seq<T>, keep: T -> bool)
    requires forall x :: x in s ==> !keep(x)
    ensures Filter(s, keep) == []
  {
    if s == [] {
    } else {
      FilterNone(s[..|s| - 1], keep);
    }
  }

  lemma {:induction false} FilterTwice<T(!new)>(s: seq<T>, first: T -> bool, second: T -> bool, both: T -> bool)
    requires forall x :: both(x) <==> first(x) && second(x)
    ensures Filter(Filter(s, first), second) == Filter(s, both)
  {
    if s == [] {
    } else {
      var front, last := s[..|s| - 1], s[|s| - 1];
      FilterTwice(front, first, second, both);
      var kept := Filter(front, first);
      assert (kept + [last])[..|kept|] == kept;
    }
  }

  /** The positions of the elements that satisfy `keep`. */
  function Positions<T(!new)>(s: seq<T>, keep: T -> bool): set<int> {
    set i | 0 <= i < |s| && keep(s[i])
  }

  lemma PositionsAppend<T(!new)>(s: seq<T>, x: T, keep: T -> bool)
    ensures Positions(s + [x], keep) == Positions(s, keep) + (if keep(x) then {|s|} else {})
    ensures |s| !in Positions(s, keep)
  {
    assert forall i :: 0 <= i < |s| ==> (s + [x])[i] == s[i];
  }

  /** Filtering keeps as many elements as there are positions that satisfy the condition. */
  lemma {:induction false} FilterSize<T(!new)>(s: seq<T>, keep: T -> bool)
    ensures |Filter(s, keep)| == |Positions(s, keep)|
  {
    if s == [] {
      assert Positions(s, keep) == {};
    } else {
      var front, last := s[..|s| - 1], s[|s| - 1];
      FilterSize(front, keep);
      PositionsAppend(front, last, keep);
      assert s == front + [last];
    }
  }
}

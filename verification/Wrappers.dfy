/** Results and optional values. */
module Wrappers {
  datatype Option<+T> = None | Some(value: T)

  datatype Result<+T> = Ok(value: T) | Err
}

/** Ordered scalars. */
module Orders {
  // Instant times, write tokens and cell values are only ever compared. The strings (or numbers)
  // the program compares form countable total orders, and each such order embeds in the reals.
  type Rank = real
}

/** Sequences taken apart, and sequences that hold the same things in different orders. */
module Sequences {
  lemma Regroup<T>(a: seq<T>, b: seq<T>, c: seq<T>)
    ensures (a + b) + c == a + (b + c)
  {
  }

  lemma FirstAndRest<T>(s: seq<T>)
    requires s != []
    ensures s == [s[0]] + s[1..]
  {
  }

  lemma DropOne<T>(s: seq<T>, i: nat, n: nat)
    requires i < n <= |s|
    ensures s[i..n][0] == s[i] && s[i..n][1..] == s[i + 1..n]
    ensures s[i..][0] == s[i] && s[i..][1..] == s[i + 1..]
  {
  }

  lemma SameMembers<T>(s: seq<T>, t: seq<T>)
    requires multiset(s) == multiset(t)
    ensures forall x :: x in s <==> x in t
    ensures |s| == |t|
  {
    assert forall x :: x in s <==> x in multiset(s);
    assert forall x :: x in t <==> x in multiset(t);
    assert |s| == |multiset(s)| && |t| == |multiset(t)|;
  }

  lemma MovedToFront<T>(a: seq<T>, x: T, b: seq<T>)
    ensures multiset([x] + (a + b)) == multiset(a + ([x] + b))
  {
  }

  /** What stands before and after one of its members, which may as well stand in front. */
  lemma Around<T>(s: seq<T>, x: T) returns (a: seq<T>, b: seq<T>)
    requires x in s
    ensures s == a + ([x] + b) && multiset([x] + (a + b)) == multiset(s)
  {
    var i :| 0 <= i < |s| && s[i] == x;
    a, b := s[..i], s[i + 1..];
    assert s == a + ([x] + b);
    MovedToFront(a, x, b);
  }

  lemma SameRest<T>(x: T, s: seq<T>, t: seq<T>)
    requires multiset([x] + s) == multiset([x] + t)
    ensures multiset(s) == multiset(t)
  {
    assert multiset([x] + s) - multiset{x} == multiset(s);
    assert multiset([x] + t) - multiset{x} == multiset(t);
  }
}

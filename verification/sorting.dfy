/**
 * Ascending sort of DCT coefficients and counting over them. The source
 * sorts with `Array.prototype.sort((a, b) => a - b)`; the model uses
 * insertion sort, and `SortedUnique` shows that the choice of algorithm
 * cannot matter: an ascending arrangement of a multiset is unique.
 */
module Sorting {
  import Seqs

  ghost predicate Sorted(s: seq<real>) {
    forall p, q :: 0 <= p < q < |s| ==> s[p] <= s[q]
  }

  /** Every element of `s` is at least `c`. */
  ghost predicate AtLeast(c: real, s: seq<real>) {
    forall i :: 0 <= i < |s| ==> c <= s[i]
  }

  function Insert(x: real, s: seq<real>): (r: seq<real>)
    ensures |r| == |s| + 1
  {
    if s == [] then [x]
    else if x <= s[0] then [x] + s
    else [s[0]] + Insert(x, s[1..])
  }

  function Sort(s: seq<real>): (r: seq<real>)
    ensures |r| == |s|
  {
    if s == [] then [] else Insert(s[0], Sort(s[1..]))
  }

  lemma {:induction false} InsertMultiset(x: real, s: seq<real>)
    ensures multiset(Insert(x, s)) == multiset(s) + multiset{x}
  {
    if s != [] && x > s[0] {
      InsertMultiset(x, s[1..]);
      assert s == [s[0]] + s[1..];
    }
  }

  lemma {:induction false} InsertAtLeast(c: real, x: real, s: seq<real>)
    requires AtLeast(c, s) && c <= x
    ensures AtLeast(c, Insert(x, s))
  {
    if s != [] && x > s[0] {
      InsertAtLeast(c, x, s[1..]);
    }
  }

  lemma ConsSorted(c: real, s: seq<real>)
    requires AtLeast(c, s) && Sorted(s)
    ensures Sorted([c] + s)
  {
  }

  lemma {:induction false} InsertSorted(x: real, s: seq<real>)
    requires Sorted(s)
    ensures Sorted(Insert(x, s))
  {
    if s != [] {
      if x <= s[0] {
        ConsSorted(x, s);
      } else {
        InsertSorted(x, s[1..]);
        InsertAtLeast(s[0], x, s[1..]);
        ConsSorted(s[0], Insert(x, s[1..]));
      }
    }
  }

  /** `Sort` returns an ascending rearrangement of its input. */
  lemma {:induction false} SortCorrect(s: seq<real>)
    ensures Sorted(Sort(s))
    ensures multiset(Sort(s)) == multiset(s)
  {
    if s != [] {
      SortCorrect(s[1..]);
      InsertSorted(s[0], Sort(s[1..]));
      InsertMultiset(s[0], Sort(s[1..]));
      assert s == [s[0]] + s[1..];
    }
  }

  /** Number of elements of `s` that satisfy `p`. */
  function CountIf(s: seq<real>, p: real -> bool): (n: nat)
    ensures n <= |s|
  {
    if s == [] then 0 else (if p(s[0]) then 1 else 0) + CountIf(s[1..], p)
  }

  function Below(c: real): real -> bool {
    y => y < c
  }

  function Above(c: real): real -> bool {
    y => y > c
  }

  lemma CountIfCons(x: real, s: seq<real>, p: real -> bool)
    ensures CountIf([x] + s, p) == (if p(x) then 1 else 0) + CountIf(s, p)
  {
    assert ([x] + s)[1..] == s;
  }

  lemma {:induction false} CountIfAppend(a: seq<real>, b: seq<real>, p: real -> bool)
    ensures CountIf(a + b, p) == CountIf(a, p) + CountIf(b, p)
  {
    if a == [] {
      assert a + b == b;
    } else {
      Seqs.SplitHead(a, b);
      CountIfAppend(a[1..], b, p);
      CountIfCons(a[0], a[1..] + b, p);
      CountIfCons(a[0], a[1..], p);
    }
  }

  lemma {:induction false} CountIfInsert(x: real, s: seq<real>, p: real -> bool)
    ensures CountIf(Insert(x, s), p) == CountIf(s, p) + (if p(x) then 1 else 0)
  {
    if s != [] && x > s[0] {
      CountIfInsert(x, s[1..], p);
      CountIfCons(s[0], Insert(x, s[1..]), p);
      CountIfCons(s[0], s[1..], p);
      assert s == [s[0]] + s[1..];
    }
  }

  /** Sorting keeps every count: it only rearranges. */
  lemma {:induction false} CountIfSort(s: seq<real>, p: real -> bool)
    ensures CountIf(Sort(s), p) == CountIf(s, p)
  {
    if s != [] {
      CountIfSort(s[1..], p);
      CountIfInsert(s[0], Sort(s[1..]), p);
    }
  }

  /** In an ascending sequence, fewer than `k + 1` elements lie below a
      value that `s[k]` reaches. */
  lemma SortedFewBelow(s: seq<real>, k: nat, c: real)
    requires Sorted(s) && k < |s| && s[k] >= c
    ensures CountIf(s, Below(c)) <= k
  {
    var prefix, rest := s[..k], s[k..];
    assert s == prefix + rest;
    CountIfAppend(prefix, rest, Below(c));
    forall i | 0 <= i < |rest|
      ensures c <= rest[i]
    {
      assert rest[i] == s[k + i];
    }
    NoneBelow(rest, c);
  }

  lemma {:induction false} NoneBelow(s: seq<real>, c: real)
    requires AtLeast(c, s)
    ensures CountIf(s, Below(c)) == 0
  {
    if s != [] {
      NoneBelow(s[1..], c);
    }
  }

  /** In an ascending sequence, at most `|s| - k - 1` elements exceed `s[k]`. */
  lemma SortedFewAbove(s: seq<real>, k: nat)
    requires Sorted(s) && k < |s|
    ensures CountIf(s, Above(s[k])) <= |s| - k - 1
  {
    var prefix, rest := s[..k + 1], s[k + 1..];
    assert s == prefix + rest;
    CountIfAppend(prefix, rest, Above(s[k]));
    forall i | 0 <= i < |prefix|
      ensures prefix[i] <= s[k]
    {
      assert prefix[i] == s[i];
    }
    NoneAbove(prefix, s[k]);
  }

  lemma {:induction false} NoneAbove(s: seq<real>, c: real)
    requires forall i :: 0 <= i < |s| ==> s[i] <= c
    ensures CountIf(s, Above(c)) == 0
  {
    if s != [] {
      NoneAbove(s[1..], c);
    }
  }

  /** In an ascending sequence, at least `k + 1` elements lie below any
      value exceeding `s[k]`. */
  lemma SortedManyBelow(s: seq<real>, k: nat, c: real)
    requires Sorted(s) && k < |s| && s[k] < c
    ensures CountIf(s, Below(c)) >= k + 1
  {
    var prefix, rest := s[..k + 1], s[k + 1..];
    assert s == prefix + rest;
    CountIfAppend(prefix, rest, Below(c));
    forall i | 0 <= i < |prefix|
      ensures prefix[i] < c
    {
      assert prefix[i] == s[i];
    }
    AllBelow(prefix, c);
  }

  lemma {:induction false} AllBelow(s: seq<real>, c: real)
    requires forall i :: 0 <= i < |s| ==> s[i] < c
    ensures CountIf(s, Below(c)) == |s|
  {
    if s != [] {
      AllBelow(s[1..], c);
    }
  }

  /** The head of an ascending sequence is its least element. */
  lemma HeadIsLeast(s: seq<real>, x: real)
    requires Sorted(s) && x in multiset(s)
    ensures s[0] <= x
  {
    var i :| 0 <= i < |s| && s[i] == x;
  }

  lemma TailMultiset(s: seq<real>)
    requires s != []
    ensures multiset(s[1..]) == multiset(s) - multiset{s[0]}
  {
    assert s == [s[0]] + s[1..];
  }

  lemma SortedTail(s: seq<real>)
    requires Sorted(s) && s != []
    ensures Sorted(s[1..])
  {
  }

  /** Two ascending arrangements of the same values are the same sequence,
      so any correct sort yields the `Sort` result. */
  lemma {:induction false} SortedUnique(a: seq<real>, b: seq<real>)
    requires Sorted(a) && Sorted(b) && multiset(a) == multiset(b)
    ensures a == b
  {
    if a == [] {
      assert |multiset(b)| == 0;
    } else {
      assert b != [] by {
        assert a[0] in multiset(b);
      }
      assert a[0] in multiset(b) && b[0] in multiset(a);
      HeadIsLeast(b, a[0]);
      HeadIsLeast(a, b[0]);
      assert a[0] == b[0];
      TailMultiset(a);
      TailMultiset(b);
      assert multiset(a[1..]) == multiset(b[1..]);
      SortedTail(a);
      SortedTail(b);
      SortedUnique(a[1..], b[1..]);
      assert a == [a[0]] + a[1..] && b == [b[0]] + b[1..];
    }
  }
}

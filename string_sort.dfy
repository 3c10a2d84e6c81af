/** JavaScript's default `Array.prototype.sort` on strings and
    `Array.prototype.join`: strings are ordered by their code units, a proper
    prefix first. The sort is a library call in the source; it is modelled by
    its result, the sorted permutation of its input. */
module StringSort {

  /** `a <= b` in JavaScript's string comparison. */
  predicate Below(a: string, b: string)
    decreases |a|
  {
    if a == [] then true
    else if b == [] then false
    else if a[0] != b[0] then a[0] < b[0]
    else Below(a[1..], b[1..])
  }

  lemma {:induction false} BelowTotal(a: string, b: string)
    ensures Below(a, b) || Below(b, a)
    decreases |a|
  {
    if a != [] && b != [] && a[0] == b[0] {
      BelowTotal(a[1..], b[1..]);
    }
  }

  lemma {:induction false} BelowAntisymmetric(a: string, b: string)
    requires Below(a, b) && Below(b, a)
    ensures a == b
    decreases |a|
  {
    if a != [] {
      BelowAntisymmetric(a[1..], b[1..]);
      assert a == [a[0]] + a[1..] && b == [b[0]] + b[1..];
    }
  }

  lemma {:induction false} BelowTransitive(a: string, b: string, c: string)
    requires Below(a, b) && Below(b, c)
    ensures Below(a, c)
    decreases |a|
  {
    if a != [] && b != [] && c != [] && a[0] == b[0] && b[0] == c[0] {
      BelowTransitive(a[1..], b[1..], c[1..]);
    }
  }

  predicate Sorted(s: seq<string>)
  {
    forall i, j :: 0 <= i < j < |s| ==> Below(s[i], s[j])
  }

  /** `x` is below every element of `s`. */
  predicate AllAbove(x: string, s: seq<string>)
  {
    forall j :: 0 <= j < |s| ==> Below(x, s[j])
  }

  /** Puts `x` in front of the first element it is below. */
  function Insert(x: string, s: seq<string>): seq<string>
  {
    if s == [] then [x]
    else if Below(x, s[0]) then [x] + s
    else [s[0]] + Insert(x, s[1..])
  }

  lemma {:induction false} InsertPermutes(x: string, s: seq<string>)
    ensures multiset(Insert(x, s)) == multiset(s) + multiset{x}
  {
    if s != [] && !Below(x, s[0]) {
      InsertPermutes(x, s[1..]);
      assert s == [s[0]] + s[1..];
    }
  }

  /** Whatever is a permutation of elements above `x` is above `x`. */
  lemma AboveAll(x: string, t: seq<string>, u: seq<string>)
    requires AllAbove(x, t) && multiset(u) == multiset(t)
    ensures AllAbove(x, u)
  {
    forall j | 0 <= j < |u|
      ensures Below(x, u[j])
    {
      assert u[j] in multiset(t);
      var k :| 0 <= k < |t| && t[k] == u[j];
    }
  }

  lemma SortedCons(x: string, t: seq<string>)
    requires Sorted(t) && AllAbove(x, t)
    ensures Sorted([x] + t)
  {
    var s := [x] + t;
    forall i, j | 0 <= i < j < |s|
      ensures Below(s[i], s[j])
    {
      if i > 0 {
        assert s[i] == t[i - 1] && s[j] == t[j - 1];
      }
    }
  }

  lemma SortedTail(s: seq<string>)
    requires Sorted(s) && s != []
    ensures Sorted(s[1..]) && AllAbove(s[0], s[1..])
  {
  }

  lemma {:induction false} InsertSorted(x: string, s: seq<string>)
    requires Sorted(s)
    ensures Sorted(Insert(x, s))
  {
    if s == [] {
    } else if Below(x, s[0]) {
      forall j | 0 <= j < |s|
        ensures Below(x, s[j])
      {
        if j > 0 { BelowTransitive(x, s[0], s[j]); }
      }
      SortedCons(x, s);
    } else {
      SortedTail(s);
      BelowTotal(x, s[0]);
      InsertSorted(x, s[1..]);
      InsertPermutes(x, s[1..]);
      var below := s[1..] + [x];
      assert AllAbove(s[0], below) by {
        forall j | 0 <= j < |below|
          ensures Below(s[0], below[j])
        {
          if j < |s| - 1 { assert below[j] == s[1..][j]; }
        }
      }
      assert multiset(below) == multiset(s[1..]) + multiset{x};
      AboveAll(s[0], below, Insert(x, s[1..]));
      SortedCons(s[0], Insert(x, s[1..]));
    }
  }

  /** The result of the default `sort()`: a sorted permutation. */
  function Sort(s: seq<string>): (r: seq<string>)
    ensures Sorted(r)
    ensures multiset(r) == multiset(s)
  {
    if s == [] then []
    else
      var rest := Sort(s[1..]);
      InsertSorted(s[0], rest);
      InsertPermutes(s[0], rest);
      SplitFirst(s);
      Insert(s[0], rest)
  }

  /** A sorted sequence is fixed by its elements: two sorted permutations
      of each other are equal. */
  lemma {:induction false} SortedUnique(a: seq<string>, b: seq<string>)
    requires Sorted(a) && Sorted(b) && multiset(a) == multiset(b)
    ensures a == b
    decreases |a|
  {
    if a != [] {
      assert |b| == |a| by { assert |multiset(b)| == |multiset(a)|; }
      FirstIsLeast(a, b[0]);
      FirstIsLeast(b, a[0]);
      BelowAntisymmetric(a[0], b[0]);
      SplitFirst(a);
      SplitFirst(b);
      SortedTail(a);
      SortedTail(b);
      assert multiset(a[1..]) == multiset(a) - multiset{a[0]};
      assert multiset(b[1..]) == multiset(b) - multiset{b[0]};
      SortedUnique(a[1..], b[1..]);
    }
  }

  lemma FirstIsLeast(s: seq<string>, x: string)
    requires Sorted(s) && x in multiset(s)
    ensures Below(s[0], x)
  {
    var i :| 0 <= i < |s| && s[i] == x;
    if i == 0 { BelowTotal(x, x); }
  }

  lemma SplitFirst(s: seq<string>)
    requires s != []
    ensures s == [s[0]] + s[1..]
    ensures multiset(s) == multiset{s[0]} + multiset(s[1..])
  {
    assert s == [s[0]] + s[1..];
  }

  /** The elements with the same elements in any order sort alike. */
  lemma SortOrderFree(a: seq<string>, b: seq<string>)
    requires multiset(a) == multiset(b)
    ensures Sort(a) == Sort(b)
  {
    SortedUnique(Sort(a), Sort(b));
  }
}

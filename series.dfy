/** A resource-usage series of the Retro dashboard: a step function of time
    held as points ordered by time, each point carrying the usage from its
    time up to the next point's time. The source also keeps a time-indexed map
    and prev/next links over the same points; both are views of the ordered
    list and are derived from it here. Usage is a JavaScript number, modelled
    as an exact real; times are kept as integers. */
module Series {

  datatype Point = Point(time: int, usage: real)

  predicate Sorted(ps: seq<Point>)
  {
    forall i, j :: 0 <= i < j < |ps| ==> ps[i].time < ps[j].time
  }

  function Times(ps: seq<Point>): set<int>
  {
    set j | 0 <= j < |ps| :: ps[j].time
  }

  /** The step function: the usage of the last point at or before `x`, and 0
      before the first point. */
  function Usage(ps: seq<Point>, x: int): real
  {
    if ps == [] then 0.0
    else if ps[|ps| - 1].time <= x then ps[|ps| - 1].usage
    else Usage(ps[..|ps| - 1], x)
  }

  /** What `addData(from, to, c)` adds at time `x`. */
  function Bump(from: int, to: int, c: real, x: int): real
  {
    if from <= x < to then c else 0.0
  }

  lemma SameTimes(ps: seq<Point>, qs: seq<Point>)
    requires |qs| == |ps| && forall j :: 0 <= j < |ps| ==> qs[j].time == ps[j].time
    ensures Times(qs) == Times(ps)
  {
    forall t | t in Times(ps)
      ensures t in Times(qs)
    {
      var j :| 0 <= j < |ps| && ps[j].time == t;
      assert qs[j].time == t;
    }
  }

  lemma AddTwice(t0: set<int>, t1: set<int>, t2: set<int>, x: int, y: int)
    requires t1 == t0 + {x} && t2 == t1 + {y}
    ensures t2 == t0 + {x, y}
  {
  }

  lemma TimesOfPrefix(ps: seq<Point>, t: int)
    requires ps != [] && t in Times(ps) && t != ps[|ps| - 1].time
    ensures t in Times(ps[..|ps| - 1])
  {
    var j :| 0 <= j < |ps| && ps[j].time == t;
    assert ps[..|ps| - 1][j].time == t;
  }

  lemma SortedPrefix(ps: seq<Point>, n: nat)
    requires Sorted(ps) && n <= |ps|
    ensures Sorted(ps[..n])
  {
    var qs := ps[..n];
    forall i, j | 0 <= i < j < |qs|
      ensures qs[i].time < qs[j].time
    {
      assert qs[i] == ps[i] && qs[j] == ps[j];
    }
  }

  /** A new point that copies the usage of its predecessor (or 0 at the
      front) leaves the step function as it was. */
  lemma {:induction false} InsertKeepsUsage(a: seq<Point>, p: Point, b: seq<Point>, x: int)
    requires Sorted(a + [p] + b)
    requires p.usage == if a == [] then 0.0 else a[|a| - 1].usage
    ensures Usage(a + [p] + b, x) == Usage(a + b, x)
    decreases |b|
  {
    if b == [] {
      InsertLastUsage(a, p, x);
    } else {
      var b' := b[..|b| - 1];
      DropLast(a, p, b);
      SortedPrefix(a + [p] + b, |a + [p] + b| - 1);
      InsertKeepsUsage(a, p, b', x);
    }
  }

  lemma InsertLastUsage(a: seq<Point>, p: Point, x: int)
    requires Sorted(a + [p] + [])
    requires p.usage == if a == [] then 0.0 else a[|a| - 1].usage
    ensures Usage(a + [p] + [], x) == Usage(a + [], x)
  {
    assert a + [p] + [] == a + [p];
    assert a + [] == a;
    assert (a + [p])[..|a|] == a;
    if p.time <= x && a != [] {
      assert a[|a| - 1] == (a + [p] + [])[|a| - 1];
      assert p == (a + [p] + [])[|a|];
    }
  }

  /** Both series end in the last point of `b`, and without it are the
      same series with `b` one point shorter. */
  lemma DropLast(a: seq<Point>, p: Point, b: seq<Point>)
    requires b != []
    ensures var b' := b[..|b| - 1];
            && (a + [p] + b)[..|a + [p] + b| - 1] == a + [p] + b'
            && (a + b)[..|a + b| - 1] == a + b'
            && (a + [p] + b)[|a + [p] + b| - 1] == b[|b| - 1] == (a + b)[|a + b| - 1]
  {
  }

  /** Adding `c` at every point whose time lies in [from, to) adds `c` to the
      step function exactly on [from, to), provided both ends are points
      (or lie beyond `x`). */
  lemma {:induction false} BumpedUsage(ps: seq<Point>, qs: seq<Point>, from: int, to: int, c: real, x: int)
    requires Sorted(ps) && |qs| == |ps|
    requires forall j :: 0 <= j < |ps| ==> qs[j].time == ps[j].time && qs[j].usage == ps[j].usage + Bump(from, to, c, ps[j].time)
    requires from < to ==> (from in Times(ps) || from > x) && (to in Times(ps) || to > x)
    ensures Usage(qs, x) == Usage(ps, x) + Bump(from, to, c, x)
    decreases |ps|
  {
    if ps != [] {
      var n := |ps| - 1;
      if ps[n].time <= x {
        if from < to && from in Times(ps) {
          var j :| 0 <= j < |ps| && ps[j].time == from;
          assert j == n || ps[j].time < ps[n].time;
        }
        if from < to && to in Times(ps) {
          var j :| 0 <= j < |ps| && ps[j].time == to;
          assert j == n || ps[j].time < ps[n].time;
        }
      } else {
        if from < to && from in Times(ps) && from != ps[n].time {
          TimesOfPrefix(ps, from);
        }
        if from < to && to in Times(ps) && to != ps[n].time {
          TimesOfPrefix(ps, to);
        }
        BumpedUsage(ps[..n], qs[..n], from, to, c, x);
      }
    }
  }

  /** Dropping leading points leaves the step function as it was from the
      first kept point on. */
  lemma {:induction false} SuffixKeepsUsage(ps: seq<Point>, k: nat, x: int)
    requires Sorted(ps) && k < |ps| && ps[k].time <= x
    ensures Usage(ps[k..], x) == Usage(ps, x)
    decreases |ps|
  {
    var n := |ps| - 1;
    if ps[n].time > x {
      assert k < n;
      assert ps[k..][..|ps[k..]| - 1] == ps[..n][k..];
      SuffixKeepsUsage(ps[..n], k, x);
    }
  }

  /** On a sorted series holding both `from` (at `start`) and `to`, the
      walk of `addData` bumps exactly the points in [from, to). */
  lemma WalkIsBump(ps: seq<Point>, qs: seq<Point>, start: nat, from: int, to: int, c: real)
    requires Sorted(ps) && start < |ps| && ps[start].time == from && to in Times(ps) && |qs| == |ps|
    requires forall j :: 0 <= j < |ps| ==> qs[j].time == ps[j].time
    requires forall j :: 0 <= j < |ps| ==>
      qs[j].usage == ps[j].usage + (if start <= j && ps[j].time < to && j + 1 < |ps| then c else 0.0)
    ensures forall j :: 0 <= j < |ps| ==> qs[j].usage == ps[j].usage + Bump(from, to, c, ps[j].time)
  {
    var k :| 0 <= k < |ps| && ps[k].time == to;
    forall j | 0 <= j < |ps| ensures qs[j].usage == ps[j].usage + Bump(from, to, c, ps[j].time) {
      if j < start {
        assert ps[j].time < from;
      } else if ps[j].time < to {
        assert j < k;
      }
    }
  }

  /** The walk of `addData` over a series that holds both ends and has the
      step function of `ps0` adds `c` to that step function on
      [from, to). */
  lemma WalkUsage(ps0: seq<Point>, ps: seq<Point>, qs: seq<Point>, start: nat, from: int, to: int, c: real)
    requires Sorted(ps) && start < |ps| && ps[start].time == from && to in Times(ps) && |qs| == |ps|
    requires forall x :: Usage(ps, x) == Usage(ps0, x)
    requires forall j :: 0 <= j < |ps| ==> qs[j].time == ps[j].time
    requires forall j :: 0 <= j < |ps| ==>
      qs[j].usage == ps[j].usage + (if start <= j && ps[j].time < to && j + 1 < |ps| then c else 0.0)
    ensures forall x :: Usage(qs, x) == Usage(ps0, x) + Bump(from, to, c, x)
  {
    WalkIsBump(ps, qs, start, from, to, c);
    assert from in Times(ps);
    forall x
      ensures Usage(qs, x) == Usage(ps0, x) + Bump(from, to, c, x)
    {
      BumpedUsage(ps, qs, from, to, c, x);
    }
  }

  /** Inserting a point at a new time between its neighbours keeps the
      series sorted, adds its time, and, when it copies its predecessor's
      usage, leaves the step function as it was. */
  lemma InsertInOrder(ps: seq<Point>, i: nat, p: Point)
    requires Sorted(ps) && i <= |ps| && p.time !in Times(ps)
    requires i > 0 ==> ps[i - 1].time <= p.time
    requires forall j :: i <= j < |ps| ==> ps[j].time > p.time
    requires p.usage == if i > 0 then ps[i - 1].usage else 0.0
    ensures Sorted(ps[..i] + [p] + ps[i..])
    ensures Times(ps[..i] + [p] + ps[i..]) == Times(ps) + {p.time}
    ensures forall x :: Usage(ps[..i] + [p] + ps[i..], x) == Usage(ps, x)
  {
    BelowInsert(ps, i, p);
    InsertSorted(ps, i, p);
    InsertTimes(ps, i, p);
    forall x
      ensures Usage(ps[..i] + [p] + ps[i..], x) == Usage(ps, x)
    {
      InsertUsage(ps, i, p, x);
    }
  }

  lemma BelowInsert(ps: seq<Point>, i: nat, p: Point)
    requires Sorted(ps) && i <= |ps| && p.time !in Times(ps)
    requires i > 0 ==> ps[i - 1].time <= p.time
    ensures forall j :: 0 <= j < i ==> ps[j].time < p.time
  {
    forall j | 0 <= j < i
      ensures ps[j].time < p.time
    {
      assert ps[j].time <= ps[i - 1].time;
      assert ps[j].time in Times(ps);
    }
  }

  lemma InsertUsage(ps: seq<Point>, i: nat, p: Point, x: int)
    requires i <= |ps| && Sorted(ps[..i] + [p] + ps[i..])
    requires p.usage == if i > 0 then ps[i - 1].usage else 0.0
    ensures Usage(ps[..i] + [p] + ps[i..], x) == Usage(ps, x)
  {
    var a, b := ps[..i], ps[i..];
    assert a + b == ps;
    assert i > 0 ==> a[|a| - 1] == ps[i - 1];
    InsertKeepsUsage(a, p, b, x);
  }

  lemma InsertSorted(ps: seq<Point>, i: nat, p: Point)
    requires Sorted(ps) && i <= |ps|
    requires forall j :: 0 <= j < i ==> ps[j].time < p.time
    requires forall j :: i <= j < |ps| ==> ps[j].time > p.time
    ensures Sorted(ps[..i] + [p] + ps[i..])
  {
    var qs := ps[..i] + [p] + ps[i..];
    forall j | 0 <= j < |qs| ensures qs[j] == if j < i then ps[j] else if j == i then p else ps[j - 1] {
    }
  }

  lemma InsertTimes(ps: seq<Point>, i: nat, p: Point)
    requires i <= |ps|
    ensures Times(ps[..i] + [p] + ps[i..]) == Times(ps) + {p.time}
  {
    var qs := ps[..i] + [p] + ps[i..];
    forall t | t in Times(qs) ensures t in Times(ps) + {p.time} {
      var j :| 0 <= j < |qs| && qs[j].time == t;
      if j > i {
        assert qs[j] == ps[j - 1];
      } else if j < i {
        assert qs[j] == ps[j];
      }
    }
    forall t | t in Times(ps) ensures t in Times(qs) {
      var j :| 0 <= j < |ps| && ps[j].time == t;
      if j >= i {
        assert qs[j + 1] == ps[j];
      } else {
        assert qs[j] == ps[j];
      }
    }
    assert qs[i] == p;
  }

  class Series {
    var elements: seq<Point>

    ghost predicate Valid()
      reads this
    {
      Sorted(elements)
    }

    constructor ()
      ensures Valid() && elements == []
    {
      elements := [];
    }

    /** `addPoint`: a point at `time`, unless one exists, inserted in order
        and carrying its predecessor's usage. */
    method AddPoint(time: int)
      requires Valid()
      modifies this
      ensures Valid()
      ensures time in old(Times(elements)) ==> elements == old(elements)
      ensures Times(elements) == old(Times(elements)) + {time}
      ensures |elements| == |old(elements)| + (if time in old(Times(elements)) then 0 else 1)
      ensures forall x :: Usage(elements, x) == Usage(old(elements), x)
    {
      if time in Times(elements) {
        return;
      }
      var i := |elements|;
      while i > 0 && elements[i - 1].time > time
        invariant 0 <= i <= |elements|
        invariant forall j :: i <= j < |elements| ==> elements[j].time > time
      {
        i := i - 1;
      }
      var usage := if i > 0 then elements[i - 1].usage else 0.0;
      InsertInOrder(elements, i, Point(time, usage));
      elements := elements[..i] + [Point(time, usage)] + elements[i..];
    }

    /** The position of the point at `time`: the source's time-indexed map. */
    method Find(time: int) returns (k: nat)
      requires time in Times(elements)
      ensures k < |elements| && elements[k].time == time
    {
      k := 0;
      while elements[k].time != time
        invariant k < |elements|
        invariant forall j :: 0 <= j < k ==> elements[j].time != time
        decreases |elements| - k
      {
        k := k + 1;
      }
    }

    /** The walk of `addData` along the next-links: `c` more usage at every
        point from position `start` on that lies before `to` and has a
        successor. */
    method AddFrom(start: nat, to: int, c: real)
      requires Valid() && start < |elements|
      modifies this
      ensures Valid() && |elements| == |old(elements)|
      ensures forall j :: 0 <= j < |elements| ==> elements[j].time == old(elements)[j].time
      ensures forall j :: 0 <= j < |elements| ==>
        elements[j].usage == old(elements)[j].usage + (if start <= j && old(elements)[j].time < to && j + 1 < |elements| then c else 0.0)
    {
      var i := start;
      while i + 1 < |elements| && elements[i].time < to
        invariant start <= i < |elements| && |elements| == |old(elements)|
        invariant forall j :: 0 <= j < |elements| ==> elements[j].time == old(elements)[j].time
        invariant forall j :: 0 <= j < |elements| ==> elements[j].usage == old(elements)[j].usage + (if start <= j < i then c else 0.0)
        invariant forall j :: start <= j < i ==> old(elements)[j].time < to
      {
        elements := elements[i := Point(elements[i].time, elements[i].usage + c)];
        i := i + 1;
      }
      forall j | i < j < |elements| ensures old(elements)[j].time >= to {
        assert old(elements)[i].time < old(elements)[j].time;
      }
    }

    /** `addData(from, to, c)`: `c` more usage on [from, to). */
    method AddData(from: int, to: int, c: real)
      requires Valid()
      modifies this
      ensures Valid()
      ensures Times(elements) == old(Times(elements)) + {from, to}
      ensures forall x :: Usage(elements, x) == Usage(old(elements), x) + Bump(from, to, c, x)
    {
      ghost var t0 := Times(elements);
      AddPoint(from);
      ghost var t1 := Times(elements);
      AddPoint(to);
      ghost var before := elements;
      var i := Find(from);
      AddFrom(i, to, c);
      SameTimes(before, elements);
      AddTwice(t0, t1, Times(elements), from, to);
      WalkUsage(old(elements), before, elements, i, from, to, c);
    }

    /** `prune(minvalue)`: drop leading points that the step function no
        longer needs at or after `minvalue`, keeping at least the last two;
        true iff the series is then empty, or lies wholly before
        `minvalue`, in which case nothing is dropped. */
    method Prune(minvalue: int) returns (empty: bool)
      requires Valid()
      modifies this
      ensures Valid()
      ensures old(elements) != [] && old(elements)[|old(elements)| - 1].time < minvalue ==> empty && elements == old(elements)
      ensures |elements| <= |old(elements)| && elements == old(elements)[|old(elements)| - |elements|..]
      ensures |elements| < |old(elements)| ==> |elements| >= 2
      ensures forall k :: 2 <= k < |old(elements)| && k < |old(elements)| - |elements| + 2 ==> old(elements)[k].time < minvalue
      ensures !empty ==> elements != []
      ensures !(old(elements) != [] && old(elements)[|old(elements)| - 1].time < minvalue) && |elements| > 2 ==> elements[2].time >= minvalue
      ensures empty <==> elements == [] || (old(elements) != [] && old(elements)[|old(elements)| - 1].time < minvalue)
      ensures forall x :: x >= minvalue ==> Usage(elements, x) == Usage(old(elements), x)
    {
      if |elements| > 0 && elements[|elements| - 1].time < minvalue {
        return true;
      }
      var cutoff := 0;
      while cutoff < |elements| - 2 && elements[cutoff + 2].time < minvalue
        invariant 0 <= cutoff <= |elements|
        invariant cutoff == 0 || cutoff + 2 <= |elements|
        invariant forall k :: 2 <= k < cutoff + 2 && k < |elements| ==> elements[k].time < minvalue
      {
        cutoff := cutoff + 1;
      }
      ghost var before := elements;
      elements := elements[cutoff..];
      forall x | x >= minvalue ensures Usage(elements, x) == Usage(before, x) {
        if cutoff > 0 {
          assert before[cutoff].time < before[cutoff + 1].time < minvalue;
          SuffixKeepsUsage(before, cutoff, x);
        }
      }
      empty := |elements| == 0;
    }
  }
}

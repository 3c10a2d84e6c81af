/** GROUP BY aggregation as Pivot Tracing performs it, both when packing a
    grouped bag into the baggage and when an emitting advice reports its
    results: tuples are grouped by the text of their key fields, and each
    aggregation column is combined with SUM, COUNT, MAX or MIN in Java `long`
    arithmetic. */
module Grouping {
  import opened Common
  import opened AdviceProtos

  // ---------------------------------------------------------------------
  // Reading a long out of an Object
  // ---------------------------------------------------------------------

  predicate AllDigits(s: string)
  {
    forall i :: 0 <= i < |s| ==> IsDigit(s[i])
  }

  /** The value of a string of decimal digits. */
  function DigitsValue(s: string): nat
    requires AllDigits(s)
    decreases |s|
  {
    if s == [] then 0 else DigitsValue(s[..|s| - 1]) * 10 + (s[|s| - 1] as int - '0' as int)
  }

  /** Guava's `Longs.tryParse`: an optional '-' then one or more ASCII digits
      whose value fits a `long`; anything else (the empty string, a '+' sign,
      a lone '-', an overflow) gives nothing. */
  function TryParseLong(s: string): (r: Option<int>)
    ensures r.Some? ==> InLong(r.value)
    ensures r.Some? ==> s != [] && (s[0] == '-' || IsDigit(s[0]))
  {
    if s == [] then None
    else
      var negative := s[0] == '-';
      var digits := if negative then s[1..] else s;
      if digits == [] || !AllDigits(digits) then None
      else
        var n := if negative then 0 - DigitsValue(digits) as int else DigitsValue(digits);
        if InLong(n) then Some(n) else None
  }

  lemma {:induction false} NatToStringValue(n: nat)
    ensures AllDigits(NatToString(n)) && DigitsValue(NatToString(n)) == n
    decreases n
  {
    if n >= 10 {
      var s := NatToString(n / 10);
      NatToStringValue(n / 10);
      var t := s + [DigitChar(n % 10)];
      assert t == NatToString(n);
      assert t[..|t| - 1] == s;
    }
  }

  /** `Long.toString` and `Longs.tryParse` are inverse on every `long`. */
  lemma ParseRendered(n: int)
    requires InLong(n)
    ensures TryParseLong(IntToString(n)) == Some(n)
  {
    if n < 0 {
      NatToStringValue(-n);
      assert IntToString(n)[1..] == NatToString(-n);
    } else {
      NatToStringValue(n);
      assert IsDigit(NatToString(n)[0]);
    }
  }

  /** Java's `(long)` of a `double`: rounds toward zero and saturates at the
      ends of the `long` range. */
  function TruncateToLong(x: real): (r: int)
    ensures InLong(r)
    ensures LONG_MIN as real <= x <= LONG_MAX as real && x >= 0.0 ==> r as real <= x < r as real + 1.0
    ensures LONG_MIN as real <= x <= LONG_MAX as real && x < 0.0 ==> r as real - 1.0 < x <= r as real
  {
    var t := if x >= 0.0 then x.Floor else -((-x).Floor);
    if t > LONG_MAX then LONG_MAX else if t < LONG_MIN then LONG_MIN else t
  }

  /** `interpretLong`: `Number.longValue()` for a number, `Longs.tryParse`
      for a string, nothing for null or any other object. */
  function InterpretLong(v: Value): (r: Option<int>)
    ensures r.Some? ==> InLong(r.value)
    ensures v.Null? || v.Opaque? ==> r.None?
    ensures v.Integral? || v.Floating? ==> r.Some?
  {
    match v
    case Null => None
    case Integral(n) => Some(Wrap64(n))
    case Floating(x, _) => Some(TruncateToLong(x))
    case Text(s) => TryParseLong(s)
    case Opaque(_) => None
  }

  /** A `long`, boxed or printed, reads back as itself. */
  lemma InterpretLongRoundTrip(n: int)
    requires InLong(n)
    ensures InterpretLong(Integral(n)) == Some(n)
    ensures InterpretLong(Text(IntToString(n))) == Some(n)
  {
    ParseRendered(n);
  }

  // ---------------------------------------------------------------------
  // Groups
  // ---------------------------------------------------------------------

  /** A GROUP BY: the number of leading key fields of a tuple, and the
      aggregation applied to each of the fields after them. */
  datatype GroupSpec = GroupSpec(keyCount: nat, aggs: seq<Agg>)
  {
    function TupleSize(): nat { keyCount + |aggs| }
  }

  type Groups = map<seq<string>, seq<int>>

  /** Every group has one key per key field and one `long` per aggregation. */
  predicate WellFormed(spec: GroupSpec, groups: Groups)
  {
    forall k :: k in groups ==> |k| == spec.keyCount && |groups[k]| == |spec.aggs| && forall i :: 0 <= i < |groups[k]| ==> InLong(groups[k][i])
  }

  /** Combining two values of one aggregation column. */
  function Combine(a: Agg, x: int, y: int): int
  {
    match a
    case COUNT => Wrap64(x + y)
    case SUM => Wrap64(x + y)
    case MAX => if x >= y then x else y
    case MIN => if x <= y then x else y
  }

  function Merge(aggs: seq<Agg>, xs: seq<int>, ys: seq<int>): (r: seq<int>)
    requires |xs| == |aggs| && |ys| == |aggs|
    ensures |r| == |aggs|
  {
    seq(|aggs|, i requires 0 <= i < |aggs| => Combine(aggs[i], xs[i], ys[i]))
  }

  /** The text of the key fields: `String.valueOf` of each. */
  function KeysOf(spec: GroupSpec, t: seq<Value>): (r: seq<string>)
    requires spec.keyCount <= |t|
    ensures |r| == spec.keyCount
    ensures forall i :: 0 <= i < spec.keyCount ==> r[i] == ValueOf(t[i])
  {
    seq(spec.keyCount, i requires 0 <= i < spec.keyCount => ValueOf(t[i]))
  }

  /** The aggregation fields: 1 for a COUNT, the interpreted `long`
      otherwise; nothing if some non-COUNT field is not a `long`. */
  function ValuesOf(aggs: seq<Agg>, fields: seq<Value>): (r: Option<seq<int>>)
    requires |fields| == |aggs|
    ensures r.Some? <==> forall i :: 0 <= i < |aggs| && aggs[i] != COUNT ==> InterpretLong(fields[i]).Some?
    ensures r.Some? ==> |r.value| == |aggs| && forall i :: 0 <= i < |aggs| ==>
      r.value[i] == if aggs[i] == COUNT then 1 else InterpretLong(fields[i]).value
    decreases |aggs|
  {
    if aggs == [] then Some([])
    else
      var first := if aggs[0] == COUNT then Some(1) else InterpretLong(fields[0]);
      var rest := ValuesOf(aggs[1..], fields[1..]);
      if first.None? || rest.None? then None else Some([first.value] + rest.value)
  }

  /** The group key and values of a tuple, or nothing when the tuple is
      dropped: its length is not the spec's, or an aggregated field is not a
      `long`. */
  function Extract(spec: GroupSpec, t: seq<Value>): Option<(seq<string>, seq<int>)>
  {
    if |t| != spec.TupleSize() then None
    else
      match ValuesOf(spec.aggs, t[spec.keyCount..])
      case None => None
      case Some(vs) => Some((KeysOf(spec, t), vs))
  }

  /** Adding one group: merged into the group with the same key, or a new
      group; ignored when its sizes do not fit the spec. */
  function AddGroup(spec: GroupSpec, groups: Groups, key: seq<string>, values: seq<int>): (r: Groups)
    requires WellFormed(spec, groups)
    requires forall i :: 0 <= i < |values| ==> InLong(values[i])
    ensures WellFormed(spec, r)
  {
    if |key| != spec.keyCount || |values| != |spec.aggs| then groups
    else if key in groups then groups[key := Merge(spec.aggs, groups[key], values)]
    else groups[key := values]
  }

  function AddTuple(spec: GroupSpec, groups: Groups, t: seq<Value>): (r: Groups)
    requires WellFormed(spec, groups)
    ensures WellFormed(spec, r)
  {
    match Extract(spec, t)
    case None => groups
    case Some((k, vs)) => AddGroup(spec, groups, k, vs)
  }

  /** The tuples added in order, the first one first. */
  function AddTuples(spec: GroupSpec, groups: Groups, ts: seq<seq<Value>>): (r: Groups)
    requires WellFormed(spec, groups)
    ensures WellFormed(spec, r)
    decreases |ts|
  {
    if ts == [] then groups else AddTuple(spec, AddTuples(spec, groups, ts[..|ts| - 1]), ts[|ts| - 1])
  }

  // ---------------------------------------------------------------------
  // What the groups hold, stated directly
  // ---------------------------------------------------------------------

  function Sum(xs: seq<int>): int
    decreases |xs|
  {
    if xs == [] then 0 else Sum(xs[..|xs| - 1]) + xs[|xs| - 1]
  }

  function MaxOf(xs: seq<int>): (r: int)
    requires xs != []
    ensures r in xs && forall i :: 0 <= i < |xs| ==> xs[i] <= r
    decreases |xs|
  {
    if |xs| == 1 then xs[0]
    else
      var m := MaxOf(xs[..|xs| - 1]);
      assert forall i :: 0 <= i < |xs| - 1 ==> xs[i] == xs[..|xs| - 1][i];
      if m >= xs[|xs| - 1] then m else xs[|xs| - 1]
  }

  function MinOf(xs: seq<int>): (r: int)
    requires xs != []
    ensures r in xs && forall i :: 0 <= i < |xs| ==> r <= xs[i]
    decreases |xs|
  {
    if |xs| == 1 then xs[0]
    else
      var m := MinOf(xs[..|xs| - 1]);
      assert forall i :: 0 <= i < |xs| - 1 ==> xs[i] == xs[..|xs| - 1][i];
      if m <= xs[|xs| - 1] then m else xs[|xs| - 1]
  }

  /** An aggregation over a whole column: the sum in `long` arithmetic, the
      largest, or the smallest. */
  function Aggregate(a: Agg, xs: seq<int>): int
    requires xs != []
  {
    match a
    case COUNT => Wrap64(Sum(xs))
    case SUM => Wrap64(Sum(xs))
    case MAX => MaxOf(xs)
    case MIN => MinOf(xs)
  }

  /** The values of every kept tuple whose key is `key`, in order. */
  function Matching(spec: GroupSpec, ts: seq<seq<Value>>, key: seq<string>): (r: seq<seq<int>>)
    ensures forall j :: 0 <= j < |r| ==> |r[j]| == |spec.aggs|
    decreases |ts|
  {
    if ts == [] then []
    else
      var rest := Matching(spec, ts[..|ts| - 1], key);
      match Extract(spec, ts[|ts| - 1])
      case Some((k, vs)) => if k == key then rest + [vs] else rest
      case None => rest
  }

  /** Column `i` of some value lists. */
  function Column(rows: seq<seq<int>>, i: nat): (r: seq<int>)
    requires forall j :: 0 <= j < |rows| ==> i < |rows[j]|
    ensures |r| == |rows|
    decreases |rows|
  {
    if rows == [] then [] else Column(rows[..|rows| - 1], i) + [rows[|rows| - 1][i]]
  }

  lemma AggregateOneMore(a: Agg, xs: seq<int>, y: int)
    requires xs != []
    ensures Aggregate(a, xs + [y]) == Combine(a, Aggregate(a, xs), y)
  {
    assert (xs + [y])[..|xs|] == xs;
    if a == COUNT || a == SUM {
      WrapAdd(Sum(xs), y);
    }
  }

  lemma WrapAdd(x: int, y: int)
    ensures Wrap64(Wrap64(x) + y) == Wrap64(x + y)
  {
    var k := (Wrap64(x) - x) / TWO_64;
    assert Wrap64(x) + y == (x + y) + k * TWO_64;
    WrapShift(x + y, k);
  }

  lemma WrapShift(z: int, k: int)
    ensures Wrap64(z + k * TWO_64) == Wrap64(z)
  {
    assert (z + k * TWO_64 - LONG_MIN) % TWO_64 == (z - LONG_MIN) % TWO_64;
  }

  /** Grouping from scratch yields exactly one group per key that some kept
      tuple carries, and each column of that group is the aggregation of that
      column over the group's tuples. */
  lemma {:induction false} GroupsAreAggregates(spec: GroupSpec, ts: seq<seq<Value>>, key: seq<string>)
    ensures key in AddTuples(spec, map[], ts) <==> Matching(spec, ts, key) != []
    ensures key in AddTuples(spec, map[], ts) ==> forall i :: 0 <= i < |spec.aggs| ==>
      AddTuples(spec, map[], ts)[key][i] == Aggregate(spec.aggs[i], Column(Matching(spec, ts, key), i))
    decreases |ts|
  {
    if ts != [] {
      var front := ts[..|ts| - 1];
      GroupsAreAggregates(spec, front, key);
      match Extract(spec, ts[|ts| - 1])
      case None =>
      case Some((k, vs)) =>
        AggregateStep(spec, AddTuples(spec, map[], front), Matching(spec, front, key), k, vs, key);
    }
  }

  /** One more group added keeps groups and aggregated columns in step. */
  lemma AggregateStep(spec: GroupSpec, g: Groups, rows: seq<seq<int>>, k: seq<string>, vs: seq<int>, key: seq<string>)
    requires WellFormed(spec, g) && |k| == spec.keyCount && |vs| == |spec.aggs|
    requires forall i :: 0 <= i < |vs| ==> InLong(vs[i])
    requires forall j :: 0 <= j < |rows| ==> |rows[j]| == |spec.aggs|
    requires key in g <==> rows != []
    requires key in g ==> forall i :: 0 <= i < |spec.aggs| ==> g[key][i] == Aggregate(spec.aggs[i], Column(rows, i))
    ensures var g', rows' := AddGroup(spec, g, k, vs), if k == key then rows + [vs] else rows;
      && (key in g' <==> rows' != [])
      && (key in g' ==> forall i :: 0 <= i < |spec.aggs| ==> g'[key][i] == Aggregate(spec.aggs[i], Column(rows', i)))
  {
    if k == key {
      if key in g {
        assert AddGroup(spec, g, k, vs) == g[key := Merge(spec.aggs, g[key], vs)];
        MergedColumns(spec, g[key], rows, vs);
      } else {
        assert AddGroup(spec, g, k, vs) == g[key := vs];
        assert rows + [vs] == [vs];
        forall i | 0 <= i < |spec.aggs| ensures Aggregate(spec.aggs[i], Column([vs], i)) == vs[i] {
          assert [vs][..0] == [];
          AggregateSingle(spec.aggs[i], vs[i]);
        }
      }
    }
  }

  lemma AggregateSingle(a: Agg, v: int)
    requires InLong(v)
    ensures Aggregate(a, [v]) == v
  {
    assert [v][..0] == [];
    assert Sum([v]) == Sum([]) + v;
  }

  lemma MergedColumns(spec: GroupSpec, old_: seq<int>, rows: seq<seq<int>>, vs: seq<int>)
    requires |old_| == |spec.aggs| && |vs| == |spec.aggs| && rows != []
    requires forall j :: 0 <= j < |rows| ==> |rows[j]| == |spec.aggs|
    requires forall i :: 0 <= i < |spec.aggs| ==> old_[i] == Aggregate(spec.aggs[i], Column(rows, i))
    ensures forall i :: 0 <= i < |spec.aggs| ==> Merge(spec.aggs, old_, vs)[i] == Aggregate(spec.aggs[i], Column(rows + [vs], i))
  {
    forall i | 0 <= i < |spec.aggs| ensures Merge(spec.aggs, old_, vs)[i] == Aggregate(spec.aggs[i], Column(rows + [vs], i)) {
      assert (rows + [vs])[..|rows|] == rows;
      AggregateOneMore(spec.aggs[i], Column(rows, i), vs[i]);
    }
  }

  /** A COUNT column counts the group's tuples. */
  lemma CountCounts(spec: GroupSpec, ts: seq<seq<Value>>, key: seq<string>, i: nat)
    requires i < |spec.aggs| && spec.aggs[i] == COUNT
    requires key in AddTuples(spec, map[], ts)
    ensures AddTuples(spec, map[], ts)[key][i] == Wrap64(|Matching(spec, ts, key)|)
  {
    GroupsAreAggregates(spec, ts, key);
    ColumnOfCount(spec, ts, key, i);
  }

  lemma {:induction false} ColumnOfCount(spec: GroupSpec, ts: seq<seq<Value>>, key: seq<string>, i: nat)
    requires i < |spec.aggs| && spec.aggs[i] == COUNT
    ensures Sum(Column(Matching(spec, ts, key), i)) == |Matching(spec, ts, key)|
    decreases |ts|
  {
    if ts != [] {
      var front := ts[..|ts| - 1];
      ColumnOfCount(spec, front, key, i);
      var rows := Matching(spec, front, key);
      match Extract(spec, ts[|ts| - 1])
      case None =>
      case Some((k, vs)) =>
        if k == key {
          assert (rows + [vs])[..|rows|] == rows;
          var col := Column(rows + [vs], i);
          assert col[..|col| - 1] == Column(rows, i);
        }
    }
  }

  // ---------------------------------------------------------------------
  // The loops that pull a tuple apart and merge a group
  // ---------------------------------------------------------------------

  /** The key and value loops of `add(tuple)` and `process`: the tuple's
      key and values, or nothing when it is dropped. */
  method ExtractTuple(spec: GroupSpec, t: seq<Value>) returns (r: Option<(seq<string>, seq<int>)>)
    ensures r == Extract(spec, t)
  {
    if |t| != spec.TupleSize() {
      return None;
    }
    var keys := [];
    for i := 0 to spec.keyCount
      invariant keys == KeysOf(spec, t)[..i]
    {
      keys := keys + [ValueOf(t[i])];
    }
    var values := [];
    var fields := t[spec.keyCount..];
    for i := 0 to |spec.aggs|
      invariant |values| == i
      invariant forall j :: 0 <= j < i && spec.aggs[j] != COUNT ==> InterpretLong(fields[j]).Some?
      invariant forall j :: 0 <= j < i ==> values[j] == if spec.aggs[j] == COUNT then 1 else InterpretLong(fields[j]).value
    {
      if spec.aggs[i] == COUNT {
        values := values + [1];
      } else {
        var v := InterpretLong(fields[i]);
        if v.None? {
          return None;
        }
        values := values + [v.value];
      }
    }
    assert keys == KeysOf(spec, t);
    assert ValuesOf(spec.aggs, fields).Some?;
    assert ValuesOf(spec.aggs, fields).value == values;
    r := Some((keys, values));
  }

  /** The merge loop: each column combined by its aggregation. */
  method MergeValues(aggs: seq<Agg>, existing: seq<int>, values: seq<int>) returns (r: seq<int>)
    requires |existing| == |aggs| && |values| == |aggs|
    ensures r == Merge(aggs, existing, values)
  {
    r := existing;
    for i := 0 to |aggs|
      invariant |r| == |aggs|
      invariant forall j :: 0 <= j < i ==> r[j] == Combine(aggs[j], existing[j], values[j])
      invariant forall j :: i <= j < |aggs| ==> r[j] == existing[j]
    {
      r := r[i := Combine(aggs[i], r[i], values[i])];
    }
  }

  /** A group added to a map of groups by the source's loops. */
  method AddGroupTo(spec: GroupSpec, groups: Groups, key: seq<string>, values: seq<int>) returns (r: Groups)
    requires WellFormed(spec, groups)
    requires forall i :: 0 <= i < |values| ==> InLong(values[i])
    ensures r == AddGroup(spec, groups, key, values)
  {
    if |key| != spec.keyCount || |values| != |spec.aggs| {
      return groups;
    }
    if key in groups {
      var merged := MergeValues(spec.aggs, groups[key], values);
      r := groups[key := merged];
    } else {
      r := groups[key := values];
    }
  }
}

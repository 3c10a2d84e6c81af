/** The bags Pivot Tracing keeps in the baggage, and the baggage namespaces
    that hold them. A bag is stored under its bag id in the ACTIVE namespace
    while a request carries it, and in the ARCHIVE namespace once archived. A
    namespace maps each key to the set of serialized bags stored under it;
    the set is held as a sequence in iteration order, and the protocol-buffer
    encoding is replaced by the `Bag` value itself. */
module Bags {
  import opened Common
  import opened PivotTracingUtils

  /** A 64-bit Java `long`. */
  type Long = x: int | InLong(x)

  /** One group of a grouped bag: its key texts and its aggregated values. */
  datatype Group = Group(groupBy: seq<string>, aggregation: seq<Long>)

  /** A deserialized bag: a version id and at most one kind of content each
      of tuples, groups and filtered tuples; `Malformed` is a stored value
      that does not parse. */
  datatype Bag =
    | Malformed
    | Bag(versionId: int, tuples: Option<seq<seq<string>>>, groups: Option<seq<Group>>, filtered: Option<seq<seq<string>>>)

  /** The tuples of every tuple bag among `bags`, in order: what merging
      their tuple lists gives. */
  function StoredTuples(bags: seq<Bag>): seq<seq<string>>
    decreases |bags|
  {
    if bags == [] then []
    else
      var last := bags[|bags| - 1];
      StoredTuples(bags[..|bags| - 1]) + (if last.Bag? && last.tuples.Some? then last.tuples.value else [])
  }

  /** The tuples of every filter bag among `bags`, in order. */
  function StoredFiltered(bags: seq<Bag>): seq<seq<string>>
    decreases |bags|
  {
    if bags == [] then []
    else
      var last := bags[|bags| - 1];
      StoredFiltered(bags[..|bags| - 1]) + (if last.Bag? && last.filtered.Some? then last.filtered.value else [])
  }

  /** The groups of every group bag among `bags`, in order. */
  function StoredGroups(bags: seq<Bag>): seq<Group>
    decreases |bags|
  {
    if bags == [] then []
    else
      var last := bags[|bags| - 1];
      StoredGroups(bags[..|bags| - 1]) + (if last.Bag? && last.groups.Some? then last.groups.value else [])
  }

  /** The version id of the last group bag among `bags`, if any. */
  function LastGroupVersion(bags: seq<Bag>): Option<int>
    decreases |bags|
  {
    if bags == [] then None
    else
      var last := bags[|bags| - 1];
      if last.Bag? && last.groups.Some? then Some(last.versionId) else LastGroupVersion(bags[..|bags| - 1])
  }

  /** The version id of the last tuple bag among `bags`, if any. */
  function LastTupleVersion(bags: seq<Bag>): Option<int>
    decreases |bags|
  {
    if bags == [] then None
    else
      var last := bags[|bags| - 1];
      if last.Bag? && last.tuples.Some? then Some(last.versionId) else LastTupleVersion(bags[..|bags| - 1])
  }

  /** `String.valueOf` of every field. */
  function ValueTexts(t: seq<Value>): (r: seq<string>)
    ensures |r| == |t|
    ensures forall i :: 0 <= i < |t| ==> r[i] == ValueOf(t[i])
  {
    seq(|t|, i requires 0 <= i < |t| => ValueOf(t[i]))
  }

  /** The tuples of length `size`, each as the text of its fields. */
  function Rendered(ts: seq<seq<Value>>, size: nat): (r: seq<seq<string>>)
    ensures |r| <= |ts|
    ensures forall j :: 0 <= j < |r| ==> |r[j]| == size
    decreases |ts|
  {
    if ts == [] then []
    else Rendered(ts[..|ts| - 1], size) + (if |ts[|ts| - 1]| == size then [ValueTexts(ts[|ts| - 1])] else [])
  }

  /** Every tuple, each as the text of its fields. */
  function RenderedAll(ts: seq<seq<Value>>): (r: seq<seq<string>>)
    ensures |r| == |ts|
    ensures forall j :: 0 <= j < |ts| ==> r[j] == ValueTexts(ts[j])
  {
    seq(|ts|, j requires 0 <= j < |ts| => ValueTexts(ts[j]))
  }

  /** The tuples of length `size`. */
  function OfSize(ts: seq<seq<string>>, size: nat): (r: seq<seq<string>>)
    ensures |r| <= |ts|
    ensures forall j :: 0 <= j < |r| ==> |r[j]| == size && r[j] in ts
    decreases |ts|
  {
    if ts == [] then []
    else OfSize(ts[..|ts| - 1], size) + (if |ts[|ts| - 1]| == size then [ts[|ts| - 1]] else [])
  }

  lemma {:induction false} RenderedAppend(a: seq<seq<Value>>, b: seq<seq<Value>>, size: nat)
    ensures Rendered(a + b, size) == Rendered(a, size) + Rendered(b, size)
    decreases |b|
  {
    if b != [] {
      var b' := b[..|b| - 1];
      assert (a + b)[..|a + b| - 1] == a + b';
      RenderedAppend(a, b', size);
    } else {
      assert a + b == a;
    }
  }

  lemma {:induction false} OfSizeAppend(a: seq<seq<string>>, b: seq<seq<string>>, size: nat)
    ensures OfSize(a + b, size) == OfSize(a, size) + OfSize(b, size)
    decreases |b|
  {
    if b != [] {
      var b' := b[..|b| - 1];
      assert (a + b)[..|a + b| - 1] == a + b';
      OfSizeAppend(a, b', size);
    } else {
      assert a + b == a;
    }
  }

  lemma StoredTuplesAppend(a: seq<Bag>, b: seq<Bag>)
    ensures StoredTuples(a + b) == StoredTuples(a) + StoredTuples(b)
    decreases |b|
  {
    if b != [] {
      var b' := b[..|b| - 1];
      assert (a + b)[..|a + b| - 1] == a + b';
      StoredTuplesAppend(a, b');
    } else {
      assert a + b == a;
    }
  }

  lemma StoredFilteredAppend(a: seq<Bag>, b: seq<Bag>)
    ensures StoredFiltered(a + b) == StoredFiltered(a) + StoredFiltered(b)
    decreases |b|
  {
    if b != [] {
      var b' := b[..|b| - 1];
      assert (a + b)[..|a + b| - 1] == a + b';
      StoredFilteredAppend(a, b');
    } else {
      assert a + b == a;
    }
  }

  lemma StoredGroupsAppend(a: seq<Bag>, b: seq<Bag>)
    ensures StoredGroups(a + b) == StoredGroups(a) + StoredGroups(b)
    decreases |b|
  {
    if b != [] {
      var b' := b[..|b| - 1];
      assert (a + b)[..|a + b| - 1] == a + b';
      StoredGroupsAppend(a, b');
    } else {
      assert a + b == a;
    }
  }

  /** The loop that turns each field of a tuple into its text. */
  method RenderTuple(t: seq<Value>) returns (r: seq<string>)
    ensures r == ValueTexts(t)
  {
    r := [];
    for j := 0 to |t|
      invariant r == ValueTexts(t)[..j]
    {
      r := r + [ValueOf(t[j])];
    }
  }

  /** One namespace of the baggage, seen through the bag ids it stores. A key
      whose set of values becomes empty is no longer there. */
  class Namespace {
    var entries: map<seq<Byte>, seq<Bag>>

    ghost predicate Valid()
      reads this
    {
      forall k :: k in entries ==> entries[k] != []
    }

    constructor ()
      ensures Valid() && entries == map[]
    {
      entries := map[];
    }

    /** `get`: the bags stored under `key`, none if absent. */
    function Get(key: seq<Byte>): seq<Bag>
      reads this
    {
      if key in entries then entries[key] else []
    }

    /** `has`: some bag is stored under `key`. */
    function Has(key: seq<Byte>): (r: bool)
      requires Valid()
      reads this
      ensures r <==> Get(key) != []
    {
      key in entries
    }

    /** `remove`: nothing is stored under `key` any more. */
    method Remove(key: seq<Byte>)
      requires Valid()
      modifies this
      ensures Valid() && entries == old(entries) - {key}
    {
      entries := entries - {key};
    }

    /** `replace`: `bag` is the only bag stored under `key`. */
    method Replace(key: seq<Byte>, bag: Bag)
      requires Valid()
      modifies this
      ensures Valid() && entries == old(entries)[key := [bag]]
    {
      entries := entries[key := [bag]];
    }
  }
}

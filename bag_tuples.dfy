/** A tuple bag: PACK appends the tuples of the expected length, as text, to
    the bag stored under the bag id in the ACTIVE namespace; UNPACK returns the
    tuples of the active and then the archived bags. */
module BagTuples {
  import opened Common
  import opened PivotTracingUtils
  import opened Bags

  /** The version id a packed tuple bag carries: that of the last active tuple
      bag, or a fresh one. */
  function VersionOf(bags: seq<Bag>, freshId: int): int
  {
    match LastTupleVersion(bags)
    case Some(v) => v
    case None => freshId
  }

  /** The active namespace after packing `tuples` onto the bags stored under
      `bagId`. */
  function Packed(entries: map<seq<Byte>, seq<Bag>>, bagId: seq<Byte>, size: nat, tuples: seq<seq<Value>>, freshId: int): map<seq<Byte>, seq<Bag>>
  {
    var stored := if bagId in entries then entries[bagId] else [];
    var all := StoredTuples(stored) + Rendered(tuples, size);
    if all == [] then entries - {bagId}
    else entries[bagId := [Bag(VersionOf(stored, freshId), Some(all), None, None)]]
  }

  lemma StoredSingle(v: int, ts: seq<seq<string>>)
    ensures StoredTuples([Bag(v, Some(ts), None, None)]) == ts
  {
    assert [Bag(v, Some(ts), None, None)][..0] == [];
  }

  /** The tuples stored under `bagId`. */
  function StoredUnder(entries: map<seq<Byte>, seq<Bag>>, bagId: seq<Byte>): seq<seq<string>>
  {
    StoredTuples(if bagId in entries then entries[bagId] else [])
  }

  /** Packing stores the tuples stored before followed by the new tuples of
      the right length, and leaves the bag id out exactly when there are
      none. */
  lemma PackedStores(entries: map<seq<Byte>, seq<Bag>>, bagId: seq<Byte>, size: nat, tuples: seq<seq<Value>>, freshId: int)
    ensures StoredUnder(Packed(entries, bagId, size, tuples, freshId), bagId) == StoredUnder(entries, bagId) + Rendered(tuples, size)
    ensures bagId in Packed(entries, bagId, size, tuples, freshId) <==> StoredUnder(entries, bagId) + Rendered(tuples, size) != []
  {
    var stored := if bagId in entries then entries[bagId] else [];
    var all := StoredTuples(stored) + Rendered(tuples, size);
    if all != [] {
      StoredSingle(VersionOf(stored, freshId), all);
    }
  }

  /** Two packs in a row store what one pack of both tuple lists stores. */
  lemma PackTwice(entries: map<seq<Byte>, seq<Bag>>, bagId: seq<Byte>, size: nat, t1: seq<seq<Value>>, t2: seq<seq<Value>>, freshId1: int, freshId2: int)
    ensures StoredUnder(Packed(Packed(entries, bagId, size, t1, freshId1), bagId, size, t2, freshId2), bagId)
            == StoredUnder(Packed(entries, bagId, size, t1 + t2, freshId1), bagId)
  {
    var first := Packed(entries, bagId, size, t1, freshId1);
    var before := StoredUnder(entries, bagId);
    PackedStores(entries, bagId, size, t1, freshId1);
    PackedStores(first, bagId, size, t2, freshId2);
    PackedStores(entries, bagId, size, t1 + t2, freshId1);
    RenderedAppend(t1, t2, size);
    AppendAssoc(before, Rendered(t1, size), Rendered(t2, size));
  }

  lemma AppendAssoc<T>(a: seq<T>, b: seq<T>, c: seq<T>)
    ensures a + b + c == a + (b + c)
  {
  }

  /** What UNPACK returns after PACK: the tuples stored before, then the new
      tuples of the right length, then the archived ones of the right
      length. */
  lemma PackThenUnpack(stored: seq<Bag>, archived: seq<Bag>, size: nat, tuples: seq<seq<Value>>, v: int)
    ensures var all := StoredTuples(stored) + Rendered(tuples, size);
      OfSize(StoredTuples([Bag(v, Some(all), None, None)]) + StoredTuples(archived), size) ==
        OfSize(StoredTuples(stored), size) + Rendered(tuples, size) + OfSize(StoredTuples(archived), size)
  {
    var all := StoredTuples(stored) + Rendered(tuples, size);
    StoredSingle(v, all);
    OfSizeAppend(all, StoredTuples(archived), size);
    OfSizeAppend(StoredTuples(stored), Rendered(tuples, size), size);
    OfSizeOfSized(Rendered(tuples, size), size);
  }

  lemma {:induction false} OfSizeOfSized(ts: seq<seq<string>>, size: nat)
    requires forall j :: 0 <= j < |ts| ==> |ts[j]| == size
    ensures OfSize(ts, size) == ts
    decreases |ts|
  {
    if ts != [] {
      OfSizeOfSized(ts[..|ts| - 1], size);
    }
  }

  /** The merge loop of PACK over the active bags: their tuples and the last
      version id among them. */
  method MergeActive(bags: seq<Bag>) returns (merged: seq<seq<string>>, version: Option<int>)
    ensures merged == StoredTuples(bags) && version == LastTupleVersion(bags)
  {
    merged, version := [], None;
    for i := 0 to |bags|
      invariant merged == StoredTuples(bags[..i]) && version == LastTupleVersion(bags[..i])
    {
      assert bags[..i + 1][..i] == bags[..i];
      var bag := bags[i];
      if bag.Bag? && bag.tuples.Some? {
        merged := merged + bag.tuples.value;
        version := Some(bag.versionId);
      }
    }
    assert bags[..|bags|] == bags;
  }

  /** The loop of PACK over the new tuples. */
  method AppendRendered(merged: seq<seq<string>>, tuples: seq<seq<Value>>, size: nat) returns (r: seq<seq<string>>)
    ensures r == merged + Rendered(tuples, size)
  {
    r := merged;
    for i := 0 to |tuples|
      invariant r == merged + Rendered(tuples[..i], size)
    {
      assert tuples[..i + 1][..i] == tuples[..i];
      if |tuples[i]| == size {
        var texts := RenderTuple(tuples[i]);
        r := r + [texts];
      }
    }
    assert tuples[..|tuples|] == tuples;
  }

  /** The loop of UNPACK: the tuples of the right length, bag after bag. */
  method CollectSized(bags: seq<Bag>, size: nat) returns (r: seq<seq<string>>)
    ensures r == OfSize(StoredTuples(bags), size)
  {
    r := [];
    for i := 0 to |bags|
      invariant r == OfSize(StoredTuples(bags[..i]), size)
    {
      var bag := bags[i];
      ghost var held := if bag.Bag? && bag.tuples.Some? then bag.tuples.value else [];
      StoredStep(bags, i);
      OfSizeAppend(StoredTuples(bags[..i]), held, size);
      if bag.Bag? && bag.tuples.Some? {
        r := AppendSized(r, bag.tuples.value, size);
      } else {
        assert OfSize(held, size) == [];
      }
    }
    assert bags[..|bags|] == bags;
  }

  lemma StoredStep(bags: seq<Bag>, i: nat)
    requires i < |bags|
    ensures StoredTuples(bags[..i + 1])
            == StoredTuples(bags[..i]) + (if bags[i].Bag? && bags[i].tuples.Some? then bags[i].tuples.value else [])
  {
    assert bags[..i + 1][..i] == bags[..i];
  }

  /** The inner loop of UNPACK over one bag's tuples. */
  method AppendSized(r0: seq<seq<string>>, ts: seq<seq<string>>, size: nat) returns (r: seq<seq<string>>)
    ensures r == r0 + OfSize(ts, size)
  {
    r := r0;
    for j := 0 to |ts|
      invariant r == r0 + OfSize(ts[..j], size)
    {
      assert ts[..j + 1][..j] == ts[..j];
      if |ts[j]| == size {
        AppendAssoc(r0, OfSize(ts[..j], size), [ts[j]]);
        r := r + [ts[j]];
      }
    }
    assert ts[..|ts|] == ts;
  }

  class BagTuples {
    const bagId: seq<Byte>
    const tupleSize: nat
    const active: Namespace
    const archive: Namespace

    ghost predicate Valid()
      reads this, active, archive
    {
      active != archive && active.Valid() && archive.Valid()
    }

    constructor (bagId: seq<Byte>, tupleSize: nat, active: Namespace, archive: Namespace)
      requires active != archive && active.Valid() && archive.Valid()
      ensures Valid()
      ensures this.bagId == bagId && this.tupleSize == tupleSize && this.active == active && this.archive == archive
    {
      this.bagId := bagId;
      this.tupleSize := tupleSize;
      this.active := active;
      this.archive := archive;
    }

    /** PACK: the active bag holds the tuples it held and the new tuples of
        the right length; it is removed when that leaves no tuple. */
    method Pack(tuples: seq<seq<Value>>, freshVersion: int)
      requires Valid()
      modifies active
      ensures Valid()
      ensures active.entries == Packed(old(active.entries), bagId, tupleSize, tuples, freshVersion)
    {
      var serialized := active.Get(bagId);
      var merged, version := MergeActive(serialized);
      merged := AppendRendered(merged, tuples, tupleSize);
      if merged == [] {
        active.Remove(bagId);
        return;
      }
      var v := if version.Some? then version.value else freshVersion;
      active.Replace(bagId, Bag(v, Some(merged), None, None));
    }

    /** UNPACK: several active bags are first merged into one; then the
        tuples of the right length, active ones first. */
    method Unpack(freshVersion: int) returns (r: seq<seq<string>>)
      requires Valid()
      modifies active
      ensures Valid()
      ensures r == OfSize(StoredTuples(old(active.Get(bagId))) + StoredTuples(archive.Get(bagId)), tupleSize)
      ensures |old(active.Get(bagId))| <= 1 ==> active.entries == old(active.entries)
      ensures |old(active.Get(bagId))| > 1 ==> active.entries == Packed(old(active.entries), bagId, tupleSize, [], freshVersion)
    {
      var activeBags := active.Get(bagId);
      if |activeBags| > 1 {
        Pack([], freshVersion);
        PackedStores(old(active.entries), bagId, tupleSize, [], freshVersion);
        activeBags := active.Get(bagId);
      }
      assert StoredTuples(activeBags) == StoredTuples(old(active.Get(bagId)));
      var archiveBags := archive.Get(bagId);
      if |activeBags| == 0 && |archiveBags| == 0 {
        return [];
      }
      StoredTuplesAppend(activeBags, archiveBags);
      r := CollectSized(activeBags + archiveBags, tupleSize);
    }
  }
}

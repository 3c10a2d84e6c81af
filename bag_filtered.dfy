/** A filtered bag: PACK keeps either the first tuples packed under the bag
    id (FIRST) or the most recent ones (MOSTRECENT); UNPACK returns the
    filtered tuples of the active and then the archived bags. */
module BagFiltered {
  import opened Common
  import opened PivotTracingUtils
  import opened AdviceProtos
  import opened Bags

  /** The bags stored under `key`. */
  function Under(entries: map<seq<Byte>, seq<Bag>>, key: seq<Byte>): seq<Bag>
  {
    if key in entries then entries[key] else []
  }

  /** The active and archive namespaces after packing `tuples` with `filter`:
      FIRST leaves both alone once something is stored under the bag id;
      MOSTRECENT forgets the archived bags; otherwise the active bag is
      replaced by a fresh filter bag of every tuple, or removed when there
      is no tuple. */
  function FilterPacked(filter: Filter, act: map<seq<Byte>, seq<Bag>>, arc: map<seq<Byte>, seq<Bag>>, bagId: seq<Byte>, tuples: seq<seq<Value>>, freshId: int): (map<seq<Byte>, seq<Bag>>, map<seq<Byte>, seq<Bag>>)
  {
    if filter == FIRST && (bagId in act || bagId in arc) then (act, arc)
    else
      var arc' := if filter == MOSTRECENT then arc - {bagId} else arc;
      if tuples == [] then (act - {bagId}, arc')
      else (act[bagId := [Bag(freshId, None, None, Some(RenderedAll(tuples)))]], arc')
  }

  /** What UNPACK returns for a pair of namespaces. */
  function Unpacked(act: map<seq<Byte>, seq<Bag>>, arc: map<seq<Byte>, seq<Bag>>, bagId: seq<Byte>): seq<seq<string>>
  {
    StoredFiltered(Under(act, bagId) + Under(arc, bagId))
  }

  lemma FilteredSingle(v: int, ts: seq<seq<string>>)
    ensures StoredFiltered([Bag(v, None, None, Some(ts))]) == ts
  {
    assert [Bag(v, None, None, Some(ts))][..0] == [];
  }

  /** After a MOSTRECENT pack, UNPACK returns exactly the tuples just packed. */
  lemma MostRecentUnpacked(act: map<seq<Byte>, seq<Bag>>, arc: map<seq<Byte>, seq<Bag>>, bagId: seq<Byte>, tuples: seq<seq<Value>>, freshId: int)
    ensures var (act', arc') := FilterPacked(MOSTRECENT, act, arc, bagId, tuples, freshId);
      Unpacked(act', arc', bagId) == RenderedAll(tuples)
  {
    var (act', arc') := FilterPacked(MOSTRECENT, act, arc, bagId, tuples, freshId);
    assert Under(arc', bagId) == [];
    if tuples == [] {
      assert Under(act', bagId) + Under(arc', bagId) == [];
    } else {
      assert Under(act', bagId) + Under(arc', bagId) == [Bag(freshId, None, None, Some(RenderedAll(tuples)))];
      FilteredSingle(freshId, RenderedAll(tuples));
    }
  }

  /** A FIRST pack onto namespaces that hold nothing under the bag id is
      what UNPACK then returns. */
  lemma FirstUnpacked(act: map<seq<Byte>, seq<Bag>>, arc: map<seq<Byte>, seq<Bag>>, bagId: seq<Byte>, tuples: seq<seq<Value>>, freshId: int)
    requires bagId !in act && bagId !in arc
    ensures var (act', arc') := FilterPacked(FIRST, act, arc, bagId, tuples, freshId);
      Unpacked(act', arc', bagId) == RenderedAll(tuples)
  {
    var (act', arc') := FilterPacked(FIRST, act, arc, bagId, tuples, freshId);
    assert Under(arc', bagId) == [];
    if tuples == [] {
      assert Under(act', bagId) + Under(arc', bagId) == [];
    } else {
      assert Under(act', bagId) + Under(arc', bagId) == [Bag(freshId, None, None, Some(RenderedAll(tuples)))];
      FilteredSingle(freshId, RenderedAll(tuples));
    }
  }

  /** Under FIRST, once a pack stored tuples, later packs change nothing. */
  lemma FirstSticks(act: map<seq<Byte>, seq<Bag>>, arc: map<seq<Byte>, seq<Bag>>, bagId: seq<Byte>, t1: seq<seq<Value>>, t2: seq<seq<Value>>, freshId1: int, freshId2: int)
    requires t1 != []
    ensures var (act1, arc1) := FilterPacked(FIRST, act, arc, bagId, t1, freshId1);
      FilterPacked(FIRST, act1, arc1, bagId, t2, freshId2) == (act1, arc1)
      && Unpacked(act1, arc1, bagId) == (if bagId in act || bagId in arc then Unpacked(act, arc, bagId) else RenderedAll(t1))
  {
    if bagId !in act && bagId !in arc {
      FirstUnpacked(act, arc, bagId, t1, freshId1);
    }
  }

  /** Under MOSTRECENT, a second pack overrides the first entirely. */
  lemma MostRecentOverrides(act: map<seq<Byte>, seq<Bag>>, arc: map<seq<Byte>, seq<Bag>>, bagId: seq<Byte>, t1: seq<seq<Value>>, t2: seq<seq<Value>>, freshId1: int, freshId2: int)
    ensures var (act1, arc1) := FilterPacked(MOSTRECENT, act, arc, bagId, t1, freshId1);
      FilterPacked(MOSTRECENT, act1, arc1, bagId, t2, freshId2) == FilterPacked(MOSTRECENT, act, arc, bagId, t2, freshId2)
  {
    var (act1, arc1) := FilterPacked(MOSTRECENT, act, arc, bagId, t1, freshId1);
    assert arc1 - {bagId} == arc - {bagId};
    if t2 == [] {
      assert act1 - {bagId} == act - {bagId};
    } else {
      var bag := [Bag(freshId2, None, None, Some(RenderedAll(t2)))];
      assert act1[bagId := bag] == act[bagId := bag];
    }
  }

  /** The loop of PACK over the tuples: every tuple, as text. */
  method RenderAll(tuples: seq<seq<Value>>) returns (r: seq<seq<string>>)
    ensures r == RenderedAll(tuples)
  {
    r := [];
    for i := 0 to |tuples|
      invariant r == RenderedAll(tuples)[..i]
    {
      var texts := RenderTuple(tuples[i]);
      r := r + [texts];
    }
  }

  /** The loop of UNPACK: the filtered tuples, bag after bag. */
  method CollectFiltered(bags: seq<Bag>) returns (r: seq<seq<string>>)
    ensures r == StoredFiltered(bags)
  {
    r := [];
    for i := 0 to |bags|
      invariant r == StoredFiltered(bags[..i])
    {
      assert bags[..i + 1][..i] == bags[..i];
      var bag := bags[i];
      if bag.Bag? && bag.filtered.Some? {
        var ts := bag.filtered.value;
        for j := 0 to |ts|
          invariant r == StoredFiltered(bags[..i]) + ts[..j]
        {
          r := r + [ts[j]];
        }
        assert ts[..|ts|] == ts;
      }
    }
    assert bags[..|bags|] == bags;
  }

  class BagFiltered {
    const bagId: seq<Byte>
    const filter: Filter
    const tupleSize: nat
    const active: Namespace
    const archive: Namespace

    ghost predicate Valid()
      reads this, active, archive
    {
      active != archive && active.Valid() && archive.Valid()
    }

    /** The filter and the variable count come from the bag's filter spec. */
    constructor (bagId: seq<Byte>, filter: Filter, varCount: nat, active: Namespace, archive: Namespace)
      requires active != archive && active.Valid() && archive.Valid()
      ensures Valid()
      ensures this.bagId == bagId && this.filter == filter && tupleSize == varCount
      ensures this.active == active && this.archive == archive
    {
      this.bagId := bagId;
      this.filter := filter;
      this.tupleSize := varCount;
      this.active := active;
      this.archive := archive;
    }

    /** PACK, with `freshVersion` standing for the random version id. */
    method Pack(tuples: seq<seq<Value>>, freshVersion: int)
      requires Valid()
      modifies active, archive
      ensures Valid()
      ensures active.entries == FilterPacked(filter, old(active.entries), old(archive.entries), bagId, tuples, freshVersion).0
      ensures archive.entries == FilterPacked(filter, old(active.entries), old(archive.entries), bagId, tuples, freshVersion).1
    {
      if filter == FIRST && (active.Has(bagId) || archive.Has(bagId)) {
        return;
      }
      if filter == MOSTRECENT {
        active.Remove(bagId);
        archive.Remove(bagId);
      }
      var rendered := RenderAll(tuples);
      if |rendered| == 0 {
        active.Remove(bagId);
        assert active.entries == old(active.entries) - {bagId};
        return;
      }
      active.Replace(bagId, Bag(freshVersion, None, None, Some(rendered)));
      assert active.entries == old(active.entries)[bagId := [Bag(freshVersion, None, None, Some(rendered))]];
    }

    /** UNPACK: the filtered tuples of the active bags, then of the archived
        ones. */
    method Unpack() returns (r: seq<seq<string>>)
      requires Valid()
      ensures r == Unpacked(active.entries, archive.entries, bagId)
    {
      r := CollectFiltered(active.Get(bagId) + archive.Get(bagId));
    }
  }
}

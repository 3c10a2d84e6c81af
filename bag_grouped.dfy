/** A grouped bag: PACK folds the new tuples into the groups already held in
    the active bag under the bag id; UNPACK merges the groups of the active
    and archived bags and returns one tuple per group. */
module BagGrouped {
  import opened Common
  import opened PivotTracingUtils
  import opened AdviceProtos
  import opened Grouping
  import opened Bags

  // ---------------------------------------------------------------------
  // Groups as messages
  // ---------------------------------------------------------------------

  /** Each group added in order, the first one first. */
  function AddGroups(spec: GroupSpec, groups: Groups, gs: seq<Group>): (r: Groups)
    requires WellFormed(spec, groups)
    ensures WellFormed(spec, r)
    decreases |gs|
  {
    if gs == [] then groups
    else
      var last := gs[|gs| - 1];
      AddGroup(spec, AddGroups(spec, groups, gs[..|gs| - 1]), last.groupBy, last.aggregation)
  }

  /** The keys of a list of groups. */
  function GroupKeys(gs: seq<Group>): (r: set<seq<string>>)
    ensures forall i :: 0 <= i < |gs| ==> gs[i].groupBy in r
    decreases |gs|
  {
    if gs == [] then {} else GroupKeys(gs[..|gs| - 1]) + {gs[|gs| - 1].groupBy}
  }

  /** `gs` lists every group of `groups` once, in some order: what iterating
      over the entries of the map gives. */
  predicate Lists(gs: seq<Group>, groups: Groups)
  {
    && (forall i, j :: 0 <= i < j < |gs| ==> gs[i].groupBy != gs[j].groupBy)
    && (forall i :: 0 <= i < |gs| ==> gs[i].groupBy in groups && gs[i].aggregation == groups[gs[i].groupBy])
    && GroupKeys(gs) == groups.Keys
  }

  lemma {:induction false} GroupKeysOnly(gs: seq<Group>, k: seq<string>)
    requires k in GroupKeys(gs)
    ensures exists i :: 0 <= i < |gs| && gs[i].groupBy == k
    decreases |gs|
  {
    if gs[|gs| - 1].groupBy != k {
      GroupKeysOnly(gs[..|gs| - 1], k);
    }
  }

  /** Dropping the last group of a listing lists the other groups. */
  lemma ListsInit(gs: seq<Group>, groups: Groups)
    requires gs != [] && Lists(gs, groups)
    ensures Lists(gs[..|gs| - 1], groups - {gs[|gs| - 1].groupBy})
  {
    var init := gs[..|gs| - 1];
    var rest := groups - {gs[|gs| - 1].groupBy};
    forall k | k in GroupKeys(init)
      ensures k in rest
    {
      GroupKeysOnly(init, k);
    }
  }

  /** Reading back a listed map of groups gives that map: the round trip of
      a packed group bag. */
  lemma {:induction false} ListedGroupsReadBack(spec: GroupSpec, gs: seq<Group>, groups: Groups)
    requires WellFormed(spec, groups) && Lists(gs, groups)
    ensures AddGroups(spec, map[], gs) == groups
    decreases |gs|
  {
    if gs == [] {
      assert groups.Keys == {};
    } else {
      var last := gs[|gs| - 1];
      var rest := groups - {last.groupBy};
      ListsInit(gs, groups);
      assert WellFormed(spec, rest);
      ListedGroupsReadBack(spec, gs[..|gs| - 1], rest);
      assert AddGroups(spec, map[], gs) == AddGroup(spec, rest, last.groupBy, last.aggregation);
      AddRemoved(spec, groups, last.groupBy);
    }
  }

  /** Adding back a group just removed from a map restores the map. */
  lemma AddRemoved(spec: GroupSpec, groups: Groups, k: seq<string>)
    requires WellFormed(spec, groups) && k in groups
    ensures AddGroup(spec, groups - {k}, k, groups[k]) == groups
  {
    assert (groups - {k})[k := groups[k]] == groups;
  }

  lemma {:induction false} AddGroupsAppend(spec: GroupSpec, groups: Groups, a: seq<Group>, b: seq<Group>)
    requires WellFormed(spec, groups)
    ensures AddGroups(spec, groups, a + b) == AddGroups(spec, AddGroups(spec, groups, a), b)
    decreases |b|
  {
    if b == [] {
      assert a + b == a;
    } else {
      assert (a + b)[..|a + b| - 1] == a + b[..|b| - 1];
      AddGroupsAppend(spec, groups, a, b[..|b| - 1]);
    }
  }

  /** The output tuple of a group: its key texts, then its aggregated
      `long`s. */
  function Row(g: Group): (r: seq<Value>)
    ensures |r| == |g.groupBy| + |g.aggregation|
  {
    seq(|g.groupBy|, i requires 0 <= i < |g.groupBy| => Text(g.groupBy[i]))
      + seq(|g.aggregation|, i requires 0 <= i < |g.aggregation| => Integral(g.aggregation[i]))
  }

  /** The group an output tuple came from, given the number of key fields. */
  function RowGroup(keyCount: nat, t: seq<Value>): Option<Group>
  {
    if keyCount > |t| then None
    else if exists i :: 0 <= i < |t| && !(if i < keyCount then t[i].Text? else t[i].Integral? && InLong(t[i].n)) then None
    else Some(Group(seq(keyCount, i requires 0 <= i < keyCount => t[i].s),
                    seq(|t| - keyCount, i requires 0 <= i < |t| - keyCount => t[keyCount + i].n)))
  }

  /** An output tuple can be read back as the group it came from. */
  lemma RowReadBack(g: Group)
    ensures RowGroup(|g.groupBy|, Row(g)) == Some(g)
  {
    var t := Row(g);
    var k := |g.groupBy|;
    assert forall i :: 0 <= i < |t| ==> if i < k then t[i] == Text(g.groupBy[i]) else t[i] == Integral(g.aggregation[i - k]);
    assert seq(k, i requires 0 <= i < k => t[i].s) == g.groupBy;
    assert seq(|t| - k, i requires 0 <= i < |t| - k => t[k + i].n) == g.aggregation;
  }

  function RowsOf(gs: seq<Group>): (r: seq<seq<Value>>)
    ensures |r| == |gs| && forall i :: 0 <= i < |gs| ==> r[i] == Row(gs[i])
  {
    seq(|gs|, i requires 0 <= i < |gs| => Row(gs[i]))
  }

  /** `gs` lists, once each, the groups of `groups` whose keys are not in
      `todo`. */
  ghost predicate ListsAllBut(gs: seq<Group>, groups: Groups, todo: set<seq<string>>)
  {
    && todo <= groups.Keys
    && GroupKeys(gs) == groups.Keys - todo
    && (forall i, j :: 0 <= i < j < |gs| ==> gs[i].groupBy != gs[j].groupBy)
    && (forall i :: 0 <= i < |gs| ==> gs[i].groupBy in groups && gs[i].aggregation == groups[gs[i].groupBy])
  }

  /** Listing one more group. */
  lemma ListsStep(spec: GroupSpec, gs: seq<Group>, groups: Groups, todo: set<seq<string>>, k: seq<string>)
    requires WellFormed(spec, groups) && ListsAllBut(gs, groups, todo) && k in todo
    ensures ListsAllBut(gs + [Group(k, groups[k])], groups, todo - {k})
  {
    var g := Group(k, groups[k]);
    forall i | 0 <= i < |gs|
      ensures gs[i].groupBy != k
    {
      assert gs[i].groupBy in GroupKeys(gs);
    }
    GroupKeysSnoc(gs, g);
    SnocDistinct(gs, g);
    SnocFromMap(gs, g, groups);
  }

  lemma SnocDistinct(gs: seq<Group>, g: Group)
    requires forall i, j :: 0 <= i < j < |gs| ==> gs[i].groupBy != gs[j].groupBy
    requires forall i :: 0 <= i < |gs| ==> gs[i].groupBy != g.groupBy
    ensures forall i, j :: 0 <= i < j < |gs + [g]| ==> (gs + [g])[i].groupBy != (gs + [g])[j].groupBy
  {
  }

  lemma SnocFromMap(gs: seq<Group>, g: Group, groups: Groups)
    requires forall i :: 0 <= i < |gs| ==> gs[i].groupBy in groups && gs[i].aggregation == groups[gs[i].groupBy]
    requires g.groupBy in groups && g.aggregation == groups[g.groupBy]
    ensures forall i :: 0 <= i < |gs + [g]| ==>
      (gs + [g])[i].groupBy in groups && (gs + [g])[i].aggregation == groups[(gs + [g])[i].groupBy]
  {
  }

  lemma GroupKeysSnoc(gs: seq<Group>, g: Group)
    ensures GroupKeys(gs + [g]) == GroupKeys(gs) + {g.groupBy}
  {
    assert (gs + [g])[..|gs|] == gs;
  }

  /** The iteration over the entries of a map of groups, in an order the
      model leaves open. */
  method ListGroups(spec: GroupSpec, groups: Groups) returns (gs: seq<Group>)
    requires WellFormed(spec, groups)
    ensures Lists(gs, groups)
  {
    gs := [];
    var todo := groups.Keys;
    while todo != {}
      invariant ListsAllBut(gs, groups, todo)
      decreases todo
    {
      var k :| k in todo;
      ListsStep(spec, gs, groups, todo, k);
      gs := gs + [Group(k, groups[k])];
      todo := todo - {k};
    }
  }

  /** The output tuples of listed groups, in order. */
  method Rows(gs: seq<Group>) returns (r: seq<seq<Value>>)
    ensures r == RowsOf(gs)
  {
    r := [];
    for i := 0 to |gs|
      invariant r == RowsOf(gs)[..i]
    {
      r := r + [Row(gs[i])];
    }
  }

  // ---------------------------------------------------------------------
  // The groups of a bag and what PACK leaves behind
  // ---------------------------------------------------------------------

  /** The groups PACK stores: those of the active group bags, then the new
      tuples. */
  function PackedGroups(spec: GroupSpec, stored: seq<Bag>, tuples: seq<seq<Value>>): Groups
  {
    AddTuples(spec, AddGroups(spec, map[], StoredGroups(stored)), tuples)
  }

  /** The version id of the last active group bag, or a fresh one. */
  function GroupVersion(stored: seq<Bag>, freshId: int): int
  {
    match LastGroupVersion(stored)
    case Some(v) => v
    case None => freshId
  }

  /** `b` is the group bag built from `groups` with version id `v`. */
  predicate IsGroupBag(b: Bag, v: int, groups: Groups)
  {
    b.Bag? && b.versionId == v && b.tuples.None? && b.filtered.None? && b.groups.Some? && Lists(b.groups.value, groups)
  }

  /** The namespace `entries` is `before` with the bag stored under `bagId`
      replaced by the group bag of `groups`, or removed when there is no
      group. */
  predicate PackedInto(entries: map<seq<Byte>, seq<Bag>>, before: map<seq<Byte>, seq<Bag>>, bagId: seq<Byte>, v: int, groups: Groups)
  {
    && (groups == map[] ==> entries == before - {bagId})
    && (groups != map[] ==>
          bagId in entries && entries == before[bagId := entries[bagId]]
          && |entries[bagId]| == 1 && IsGroupBag(entries[bagId][0], v, groups))
  }

  /** After a PACK, the active namespace holds exactly the groups packed. */
  lemma PackedReadBack(spec: GroupSpec, entries: map<seq<Byte>, seq<Bag>>, before: map<seq<Byte>, seq<Bag>>, bagId: seq<Byte>, v: int, groups: Groups)
    requires WellFormed(spec, groups) && PackedInto(entries, before, bagId, v, groups)
    ensures AddGroups(spec, map[], StoredGroups(if bagId in entries then entries[bagId] else [])) == groups
  {
    if groups != map[] {
      var b := entries[bagId][0];
      assert entries[bagId] == [b];
      assert [b][..0] == [];
      assert StoredGroups([b]) == b.groups.value;
      ListedGroupsReadBack(spec, b.groups.value, groups);
    } else {
      assert StoredGroups([]) == [];
    }
  }

  /** The groups of several packs: packing `t1` and then `t2` stores the
      groups of packing `t1 + t2` at once. */
  lemma {:induction false} AddTuplesAppend(spec: GroupSpec, groups: Groups, a: seq<seq<Value>>, b: seq<seq<Value>>)
    requires WellFormed(spec, groups)
    ensures AddTuples(spec, groups, a + b) == AddTuples(spec, AddTuples(spec, groups, a), b)
    decreases |b|
  {
    if b == [] {
      assert a + b == a;
    } else {
      assert (a + b)[..|a + b| - 1] == a + b[..|b| - 1];
      AddTuplesAppend(spec, groups, a, b[..|b| - 1]);
    }
  }

  lemma PackTwice(spec: GroupSpec, entries1: map<seq<Byte>, seq<Bag>>, entries: map<seq<Byte>, seq<Bag>>, bagId: seq<Byte>, v: int, stored: seq<Bag>, t1: seq<seq<Value>>, t2: seq<seq<Value>>)
    requires PackedInto(entries1, entries, bagId, v, PackedGroups(spec, stored, t1))
    ensures PackedGroups(spec, if bagId in entries1 then entries1[bagId] else [], t2) == PackedGroups(spec, stored, t1 + t2)
  {
    PackedReadBack(spec, entries1, entries, bagId, v, PackedGroups(spec, stored, t1));
    AddTuplesAppend(spec, AddGroups(spec, map[], StoredGroups(stored)), t1, t2);
  }

  // ---------------------------------------------------------------------
  // GroupedTuples and the bag
  // ---------------------------------------------------------------------

  /** The groups being assembled for a PACK or an UNPACK. */
  class GroupedTuples {
    const spec: GroupSpec
    var versionId: int
    var groups: Groups

    ghost predicate Valid()
      reads this
    {
      WellFormed(spec, groups)
    }

    /** `freshVersion` stands for the random version id. */
    constructor (spec: GroupSpec, freshVersion: int)
      ensures Valid() && this.spec == spec && versionId == freshVersion && groups == map[]
    {
      this.spec := spec;
      versionId := freshVersion;
      groups := map[];
    }

    /** `add(Object[])`: a tuple of the wrong length, or with a non-`long`
        aggregated field, is dropped. */
    method AddTuple(t: seq<Value>)
      requires Valid()
      modifies this
      ensures Valid() && versionId == old(versionId)
      ensures groups == Grouping.AddTuple(spec, old(groups), t)
    {
      var extracted := ExtractTuple(spec, t);
      if extracted.Some? {
        var (keys, values) := extracted.value;
        groups := AddGroupTo(spec, groups, keys, values);
      }
    }

    method AddAllTuples(ts: seq<seq<Value>>)
      requires Valid()
      modifies this
      ensures Valid() && versionId == old(versionId)
      ensures groups == AddTuples(spec, old(groups), ts)
    {
      for i := 0 to |ts|
        invariant Valid() && versionId == old(versionId)
        invariant groups == AddTuples(spec, old(groups), ts[..i])
      {
        assert ts[..i + 1][..i] == ts[..i];
        AddTuple(ts[i]);
      }
      assert ts[..|ts|] == ts;
    }

    /** `add(Group)`: a group of the wrong size is ignored. */
    method AddGroupMessage(g: Group)
      requires Valid()
      modifies this
      ensures Valid() && versionId == old(versionId)
      ensures groups == AddGroup(spec, old(groups), g.groupBy, g.aggregation)
    {
      groups := AddGroupTo(spec, groups, g.groupBy, g.aggregation);
    }

    method AddAllGroups(gs: seq<Group>)
      requires Valid()
      modifies this
      ensures Valid() && versionId == old(versionId)
      ensures groups == AddGroups(spec, old(groups), gs)
    {
      for i := 0 to |gs|
        invariant Valid() && versionId == old(versionId)
        invariant groups == AddGroups(spec, old(groups), gs[..i])
      {
        assert gs[..i + 1][..i] == gs[..i];
        AddGroupMessage(gs[i]);
      }
      assert gs[..|gs| - 0] == gs;
    }

    /** The deserializing loop: every group bag adds its groups and, in
        PACK, passes on its version id. */
    method AddBags(bags: seq<Bag>)
      requires Valid()
      modifies this
      ensures Valid()
      ensures groups == AddGroups(spec, old(groups), StoredGroups(bags))
      ensures versionId == GroupVersion(bags, old(versionId))
    {
      for i := 0 to |bags|
        invariant Valid()
        invariant groups == AddGroups(spec, old(groups), StoredGroups(bags[..i]))
        invariant versionId == GroupVersion(bags[..i], old(versionId))
      {
        assert bags[..i + 1][..i] == bags[..i];
        var bag := bags[i];
        assert bags[..i + 1][i] == bag;
        if bag.Bag? && bag.groups.Some? {
          versionId := bag.versionId;
          AddGroupsAppend(spec, old(groups), StoredGroups(bags[..i]), bag.groups.value);
          AddAllGroups(bag.groups.value);
        } else {
          assert StoredGroups(bags[..i]) + [] == StoredGroups(bags[..i]);
        }
        assert StoredGroups(bags[..i + 1]) == StoredGroups(bags[..i]) + (if bag.Bag? && bag.groups.Some? then bag.groups.value else []);
      }
      assert bags[..|bags|] == bags;
    }

    /** `getTuples`: one output tuple per group, in the map's order. */
    method GetTuples() returns (r: seq<seq<Value>>, ghost listed: seq<Group>)
      requires Valid()
      ensures Lists(listed, groups) && r == RowsOf(listed)
    {
      var gs := ListGroups(spec, groups);
      r := Rows(gs);
      listed := gs;
    }

    /** `getBag`: the group bag of the groups, with this version id. */
    method GetBag() returns (b: Bag)
      requires Valid()
      ensures IsGroupBag(b, versionId, groups)
    {
      var gs := ListGroups(spec, groups);
      b := Bag(versionId, None, Some(gs), None);
    }
  }

  class BagGrouped {
    const bagId: seq<Byte>
    const spec: GroupSpec
    const active: Namespace
    const archive: Namespace

    ghost predicate Valid()
      reads this, active, archive
    {
      active != archive && active.Valid() && archive.Valid()
    }

    /** The key count and the aggregations come from the bag's GROUP BY
        spec. */
    constructor (bagId: seq<Byte>, spec: GroupSpec, active: Namespace, archive: Namespace)
      requires active != archive && active.Valid() && archive.Valid()
      ensures Valid()
      ensures this.bagId == bagId && this.spec == spec && this.active == active && this.archive == archive
    {
      this.bagId := bagId;
      this.spec := spec;
      this.active := active;
      this.archive := archive;
    }

    /** PACK, with `freshVersion` standing for the random version id. */
    method Pack(tuples: seq<seq<Value>>, freshVersion: int)
      requires Valid()
      modifies active
      ensures Valid()
      ensures PackedInto(active.entries, old(active.entries), bagId, GroupVersion(old(active.Get(bagId)), freshVersion),
                         PackedGroups(spec, old(active.Get(bagId)), tuples))
    {
      var groups := new GroupedTuples(spec, freshVersion);
      groups.AddBags(active.Get(bagId));
      groups.AddAllTuples(tuples);
      if |groups.groups| == 0 {
        active.Remove(bagId);
        return;
      }
      var b := groups.GetBag();
      active.Replace(bagId, b);
    }

    /** UNPACK: several active bags are first merged into one; then one
        tuple per group of the active and archived bags together. */
    method Unpack(freshVersion: int) returns (r: seq<seq<Value>>, ghost listed: seq<Group>)
      requires Valid()
      modifies active
      ensures Valid()
      ensures Lists(listed, AddGroups(spec, map[], StoredGroups(old(active.Get(bagId)) + archive.Get(bagId))))
      ensures r == RowsOf(listed)
      ensures |old(active.Get(bagId))| <= 1 ==> active.entries == old(active.entries)
      ensures |old(active.Get(bagId))| > 1 ==> PackedInto(active.entries, old(active.entries), bagId,
                GroupVersion(old(active.Get(bagId)), freshVersion), PackedGroups(spec, old(active.Get(bagId)), []))
    {
      var activeBags := active.Get(bagId);
      ghost var before := activeBags;
      var archiveBags := archive.Get(bagId);
      if |activeBags| > 1 {
        Pack([], freshVersion);
        PackedReadBack(spec, active.entries, old(active.entries), bagId,
                       GroupVersion(before, freshVersion), PackedGroups(spec, before, []));
        activeBags := active.Get(bagId);
      }
      assert archive.Get(bagId) == archiveBags;
      MergedWithArchive(spec, activeBags, before, archiveBags);
      if |activeBags| == 0 && |archiveBags| == 0 {
        r, listed := [], [];
        return;
      }
      r, listed := Ungroup(spec, activeBags + archiveBags, freshVersion);
    }
  }

  /** The groups of all the bags, merged, as output tuples. */
  method Ungroup(spec: GroupSpec, bags: seq<Bag>, freshVersion: int) returns (r: seq<seq<Value>>, ghost listed: seq<Group>)
    ensures Lists(listed, AddGroups(spec, map[], StoredGroups(bags))) && r == RowsOf(listed)
  {
    var groups := new GroupedTuples(spec, freshVersion);
    groups.AddBags(bags);
    r, listed := groups.GetTuples();
  }

  /** The active bags after the merge of several hold the same groups as
      before it, so together with the archived bags too. */
  lemma MergedWithArchive(spec: GroupSpec, after: seq<Bag>, before: seq<Bag>, archived: seq<Bag>)
    requires AddGroups(spec, map[], StoredGroups(after)) == AddGroups(spec, map[], StoredGroups(before))
    ensures AddGroups(spec, map[], StoredGroups(after + archived)) == AddGroups(spec, map[], StoredGroups(before + archived))
    ensures after == [] && archived == [] ==> AddGroups(spec, map[], StoredGroups(before + archived)) == map[]
  {
    StoredGroupsAppend(after, archived);
    StoredGroupsAppend(before, archived);
    AddGroupsAppend(spec, map[], StoredGroups(after), StoredGroups(archived));
    AddGroupsAppend(spec, map[], StoredGroups(before), StoredGroups(archived));
    assert StoredGroups([]) == [];
  }
}

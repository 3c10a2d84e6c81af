/** The grouped output of a query: EMIT queues tuple lists; GETRESULTS
    drains the queue and reports one group per key, each column aggregated
    over the drained tuples with that key. */
module EmitGrouped {
  import opened Common
  import opened AdviceProtos
  import opened Grouping
  import opened Bags
  import opened BagGrouped

  /** The queued tuple lists, one after the other. */
  function Flatten(pending: seq<seq<seq<Value>>>): seq<seq<Value>>
    decreases |pending|
  {
    if pending == [] then [] else Flatten(pending[..|pending| - 1]) + pending[|pending| - 1]
  }

  /** What a report holds besides its groups. */
  datatype Header = Header(agent: string, timestamp: int)

  /** A report: its header and its groups. */
  datatype QueryResults = QueryResults(header: Header, groups: seq<Group>)

  class EmitGrouped {
    const spec: GroupSpec
    var pending: seq<seq<seq<Value>>>

    /** The key count and the aggregations come from the query's GROUP BY
        spec; the emit spec is not modelled. */
    constructor (spec: GroupSpec)
      ensures this.spec == spec && pending == []
    {
      this.spec := spec;
      pending := [];
    }

    /** `emit`: the tuples wait in the queue. */
    method Emit(tuples: seq<seq<Value>>)
      modifies this
      ensures pending == old(pending) + [tuples]
    {
      pending := pending + [tuples];
    }

    /** `process`: the groups of the tuples, in order. */
    method Process(tuples: seq<seq<Value>>) returns (results: Groups)
      ensures results == AddTuples(spec, map[], tuples)
    {
      results := map[];
      for i := 0 to |tuples|
        invariant WellFormed(spec, results)
        invariant results == AddTuples(spec, map[], tuples[..i])
      {
        assert tuples[..i + 1][..i] == tuples[..i];
        var extracted := ExtractTuple(spec, tuples[i]);
        if extracted.Some? {
          var (keys, values) := extracted.value;
          results := AddGroupTo(spec, results, keys, values);
        }
      }
      assert tuples[..|tuples|] == tuples;
    }

    /** `getResults`: the queue is drained, and the report lists one group
        per key of the drained tuples. */
    method GetResults(header: Header) returns (r: QueryResults, ghost results: Groups)
      modifies this
      ensures pending == []
      ensures results == AddTuples(spec, map[], Flatten(old(pending)))
      ensures r.header == header && Lists(r.groups, results)
    {
      var drained := pending;
      pending := [];
      var all := [];
      for i := 0 to |drained|
        invariant all == Flatten(drained[..i])
      {
        assert drained[..i + 1][..i] == drained[..i];
        all := all + drained[i];
      }
      assert drained[..|drained|] == drained;
      var groups := Process(all);
      var gs := ListGroups(spec, groups);
      r := QueryResults(header, gs);
      results := groups;
    }
  }

  /** A report lists, for each key, the aggregate of every drained tuple
      with that key, column by column. */
  lemma ReportedAggregates(spec: GroupSpec, pending: seq<seq<seq<Value>>>, gs: seq<Group>, i: nat)
    requires Lists(gs, AddTuples(spec, map[], Flatten(pending)))
    requires i < |gs|
    ensures Matching(spec, Flatten(pending), gs[i].groupBy) != []
    ensures forall c :: 0 <= c < |spec.aggs| ==>
      gs[i].aggregation[c] == Aggregate(spec.aggs[c], Column(Matching(spec, Flatten(pending), gs[i].groupBy), c))
  {
    GroupsAreAggregates(spec, Flatten(pending), gs[i].groupBy);
  }

  lemma {:induction false} FlattenAppend(a: seq<seq<seq<Value>>>, b: seq<seq<seq<Value>>>)
    ensures Flatten(a + b) == Flatten(a) + Flatten(b)
    decreases |b|
  {
    if b == [] {
      assert a + b == a;
    } else {
      assert (a + b)[..|a + b| - 1] == a + b[..|b| - 1];
      FlattenAppend(a, b[..|b| - 1]);
    }
  }

  /** Emitting in two batches reports what folding the second batch into the
      groups of the first gives. */
  lemma EmitBatches(spec: GroupSpec, pending: seq<seq<seq<Value>>>, tuples: seq<seq<Value>>)
    ensures AddTuples(spec, map[], Flatten(pending + [tuples])) == AddTuples(spec, AddTuples(spec, map[], Flatten(pending)), tuples)
  {
    FlattenAppend(pending, [tuples]);
    assert [tuples][..0] == [];
    AddTuplesAppend(spec, map[], Flatten(pending), tuples);
  }
}

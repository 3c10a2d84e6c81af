# Verified model of the tracing framework's analysis and query core

This project models, in Dafny, the core of a distributed-tracing framework.
The framework has four parts: X-Trace, Retro, Pivot Tracing and the Tracing Plane.
The model covers the sequential data-structure and query logic of those parts, and proves what each piece promises.

- **X-Trace trace analysis.**
  - The Ruby report parser (`key: value` blocks, hex X-Trace metadata, edges) and the trace builder, which links parents and children, finds the roots, numbers reports with an explicit stack, and searches descendants.
  - The JavaScript kernel graph: a mutable graph with parent/child adjacency and a label index, supporting link, remove with splicing, relabel, clone and construction from reports.
  - The Weisfeiler–Lehman kernel: the memoising multiset label generator, directional relabelling, the kernel score accumulated over rounds, and node stability.
  - The X-Trace client's `{}` message substitution.
- **Tracing Plane baggage.** A map from namespace to key to a set of values, with add, get, remove, replace, merge, split and move. A namespace disappears once it is empty.
- **Pivot Tracing.**
  - The tuple, filtered and grouped bags, which PACK into and UNPACK from the active and archived namespaces.
  - The GROUP BY aggregation of bags and of emitted results (SUM, COUNT, MIN and MAX in Java `long` arithmetic).
  - The advice: configuration of the tuple layout and name resolution, and the join over every combination of unpacked tuples.
  - The sorted-array advice registry and hard-coded tracepoint weaving.
  - The query-line parser, the query-name helpers, and bag-id byte packing.
- **Retro.** The mClock slot counter and the sorted step series of the resource visualisation.
- **Dynamic instrumentation.** The dynamic-modification change set.

How the model maps the source:
- Objects whose fields the source updates in place are Dafny classes whose methods carry `modifies` clauses and state the whole new state. Each such state is tied to a specification function, and the properties are proved about that function.
- Loops are `while`/`for` loops with invariants.
- Pure helpers are functions with lemmas.
- Compare-and-set retry loops are single sequential updates.
- Serialized bags and protocol messages are datatypes.
- Randomness (version ids), the JavaScript engine that evaluates LET and WHERE, and the base graph kernel are parameters.

The trace builder's numbering follows the code in reports.rb:
- The source comment at reports.rb:27 calls the numbering a topological sort.
- The code's `visit_postorder` is a depth-first traversal in which the first visit wins.
- The model therefore proves only that every report reachable from the roots is numbered once. It does not prove an order between parents and children.

## Model

| member | source | states |
|---|---|---|
| QueryUtils.Split | pivottracing/client/src/main/java/edu/brown/cs/systems/pivottracing/query/QueryUtils.java:13-24 | a result splits the name at its first '.' into two non-empty sides that re-join to the input; no result exactly when there is no '.', the name starts with '.', or its only '.' is the last character |
| QueryUtils.SplitQualified | pivottracing/client/src/main/java/edu/brown/cs/systems/pivottracing/query/QueryUtils.java:18-23 | round trip: any two non-empty names, the first without '.', joined by '.' split back into the same pair |
| QueryUtils.ValidNamesDoNotSplit | pivottracing/client/src/main/java/edu/brown/cs/systems/pivottracing/query/QueryUtils.java:60-62 | a valid variable name (no '.') never splits as a qualified name |
| QueryUtils.ValidateVarName | pivottracing/client/src/main/java/edu/brown/cs/systems/pivottracing/query/QueryUtils.java:66-70 | succeeds iff the name has no '.', otherwise fails with "Invalid var " followed by the name |
| QueryUtils.Parenthesised | pivottracing/client/src/main/java/edu/brown/cs/systems/pivottracing/query/QueryUtils.java:31-37 | for a first '(' before the last character: the upper-cased text before it and the text between it and the last character; nothing when there is no '(' or it is the last character (where substring would throw) |
| QueryUtils.SplitAgg | pivottracing/client/src/main/java/edu/brown/cs/systems/pivottracing/query/QueryUtils.java:27-42 | "count" in any case gives (COUNT, ""); otherwise a result iff the name has the NAME(var) shape and the upper-cased NAME is an aggregation, whose name and inner text the result carries |
| QueryUtils.SplitAggWritten | pivottracing/client/src/main/java/edu/brown/cs/systems/pivottracing/query/QueryUtils.java:27-42 | round trip: an aggregation written name(v), in any letter case, is read back as that aggregation and v |
| QueryUtils.SplitFilter | pivottracing/client/src/main/java/edu/brown/cs/systems/pivottracing/query/QueryUtils.java:45-57 | a result iff the name has the NAME(query) shape and the upper-cased NAME is a filter; the result carries that filter and the inner text |
| QueryUtils.CombinerFor | pivottracing/client/src/main/java/edu/brown/cs/systems/pivottracing/query/QueryUtils.java:73-79 | never COUNT; MIN iff the input is MIN, MAX iff the input is MAX, otherwise SUM |
| QueryUtils.CombinerIdempotent | pivottracing/client/src/main/java/edu/brown/cs/systems/pivottracing/query/QueryUtils.java:73-79 | the combiner of a combiner is itself |
| AdviceProtos.AggValueOf | pivottracing/client/src/main/java/edu/brown/cs/systems/pivottracing/query/QueryUtils.java:37 | the aggregation named exactly by the text, and nothing for any other text (both directions) |
| AdviceProtos.FilterValueOf | pivottracing/client/src/main/java/edu/brown/cs/systems/pivottracing/query/QueryUtils.java:52 | the filter named exactly by the text, and nothing for any other text (both directions) |
| Common.ResolveFinds | pivottracing/agent/src/main/java/edu/brown/cs/systems/pivottracing/agent/HardcodedTracepoint.java:35-43 | resolving observed names succeeds iff every name is exported; each resolved position then holds that very name; a failure names an observed name that is not exported |
| Common.ResolvePrefixFails | pivottracing/agent/src/main/java/edu/brown/cs/systems/pivottracing/agent/HardcodedTracepoint.java:36-42 | the first name that fails to resolve ends the lookup: the result is that of the failing prefix |
| Common.ResolvedWithin | pivottracing/agent/src/main/java/edu/brown/cs/systems/pivottracing/agent/HardcodedTracepoint.java:35-43 | every resolved position lies within the exports |
| Tracepoint.UnwovenDropsOnlyId | pivottracing/agent/src/main/java/edu/brown/cs/systems/pivottracing/agent/HardcodedTracepoint.java:70-97 | with distinct ids, unweaving leaves no advice with the id; it removes one advice if the id was woven and changes nothing otherwise; every other advice survives and nothing is added |
| Tracepoint.UnwovenKeeps | pivottracing/agent/src/main/java/edu/brown/cs/systems/pivottracing/agent/HardcodedTracepoint.java:79-81 | advice with another id survives unweaving |
| Tracepoint.UnwovenWithin | pivottracing/agent/src/main/java/edu/brown/cs/systems/pivottracing/agent/HardcodedTracepoint.java:79-81 | unweaving adds no advice |
| Tracepoint.UnwovenNoId | pivottracing/agent/src/main/java/edu/brown/cs/systems/pivottracing/agent/HardcodedTracepoint.java:75-90 | with distinct ids, nothing left after unweaving has the id |
| Tracepoint.UnwovenLength | pivottracing/agent/src/main/java/edu/brown/cs/systems/pivottracing/agent/HardcodedTracepoint.java:79 | unweaving a woven id leaves one advice fewer |
| Tracepoint.UnwovenAt | pivottracing/agent/src/main/java/edu/brown/cs/systems/pivottracing/agent/HardcodedTracepoint.java:75-85 | when the first advice with the id is at i, unweaving yields the copy without position i (the two arraycopy calls) |
| Tracepoint.UnwovenAbsent | pivottracing/agent/src/main/java/edu/brown/cs/systems/pivottracing/agent/HardcodedTracepoint.java:93-96 | when no advice has the id, nothing changes and the id is reported absent |
| Tracepoint.UnweaveUndoesWeave | pivottracing/agent/src/main/java/edu/brown/cs/systems/pivottracing/agent/HardcodedTracepoint.java:46-97 | round trip: unweaving the advice just appended under an unused id restores the woven list |
| Tracepoint.Projected | pivottracing/agent/src/main/java/edu/brown/cs/systems/pivottracing/agent/HardcodedTracepoint.java:122-125 | the observed values are the exports at the advice's positions, one per position |
| Tracepoint.CallsAdvise | pivottracing/agent/src/main/java/edu/brown/cs/systems/pivottracing/agent/HardcodedTracepoint.java:117-132 | call i of an invocation goes to the i-th woven advice, with the exports it observes |
| Tracepoint.IssuedFresh | pivottracing/agent/src/main/java/edu/brown/cs/systems/pivottracing/agent/HardcodedTracepoint.java:137 | an id not yet issued by the seed is not woven |
| Tracepoint.AppendIssued | pivottracing/agent/src/main/java/edu/brown/cs/systems/pivottracing/agent/HardcodedTracepoint.java:58-60 | appending advice under the next id keeps every id below the seed and ascending, and keeps positions within the exports |
| Tracepoint.UnwovenIssued | pivottracing/agent/src/main/java/edu/brown/cs/systems/pivottracing/agent/HardcodedTracepoint.java:79-81 | cutting one advice out keeps ids issued and ascending and positions within the exports |
| Tracepoint.ResolveNames | pivottracing/agent/src/main/java/edu/brown/cs/systems/pivottracing/agent/HardcodedTracepoint.java:35-43 | the loop returns the resolved positions or the first name that is not exported, exactly as Resolve specifies |
| Tracepoint.HasId | pivottracing/agent/src/main/java/edu/brown/cs/systems/pivottracing/agent/HardcodedTracepoint.java:51-55 | true iff some woven advice already has the id |
| Tracepoint.Appended | pivottracing/agent/src/main/java/edu/brown/cs/systems/pivottracing/agent/HardcodedTracepoint.java:58-60 | a fresh array holding the old advice followed by the new one |
| Tracepoint.CutOut | pivottracing/agent/src/main/java/edu/brown/cs/systems/pivottracing/agent/HardcodedTracepoint.java:79-81 | a fresh array one shorter: positions before i kept, later ones shifted down by one |
| Tracepoint.Observe | pivottracing/agent/src/main/java/edu/brown/cs/systems/pivottracing/agent/HardcodedTracepoint.java:122-125 | the inner loop returns exactly the projected exports |
| Tracepoint.HardcodedTracepoint.constructor | pivottracing/agent/src/main/java/edu/brown/cs/systems/pivottracing/agent/HardcodedTracepoint.java:25-30 | no advice woven, id seed 0, the declared exports kept |
| Tracepoint.HardcodedTracepoint.Weave | pivottracing/agent/src/main/java/edu/brown/cs/systems/pivottracing/agent/HardcodedTracepoint.java:33-67 | an unexported name fails with that name and changes nothing; otherwise the seed advances, and the advice is appended under the old seed (returned), or a duplicate id fails; ids stay issued and ascending, so a duplicate never happens from a valid state |
| Tracepoint.HardcodedTracepoint.Unweave | pivottracing/agent/src/main/java/edu/brown/cs/systems/pivottracing/agent/HardcodedTracepoint.java:70-97 | found iff the id was woven; the woven list becomes Unwoven (that advice cut out, the rest in order); the seed is unchanged |
| Tracepoint.HardcodedTracepoint.HasWovenAdvice | pivottracing/agent/src/main/java/edu/brown/cs/systems/pivottracing/agent/HardcodedTracepoint.java:101-103 | true iff some advice is woven |
| Tracepoint.HardcodedTracepoint.Advise | pivottracing/agent/src/main/java/edu/brown/cs/systems/pivottracing/agent/HardcodedTracepoint.java:108-133 | with the wrong number of exports nothing is called; otherwise every woven advice is called in order with its observed values |
| AdviceManager.AsMapBelow | pivottracing/agent/src/main/java/edu/brown/cs/systems/pivottracing/agent/AdviceInstanceManager.java:13-20 | an id above every registered key is not registered |
| AdviceManager.AsMapAbsent | pivottracing/agent/src/main/java/edu/brown/cs/systems/pivottracing/agent/AdviceInstanceManager.java:52-63 | a key held by no entry maps to nothing |
| AdviceManager.Position | pivottracing/agent/src/main/java/edu/brown/cs/systems/pivottracing/agent/AdviceInstanceManager.java:72-77 | the insertion point: every earlier key is below the new key, and the key there (if any) is not |
| AdviceManager.WithoutMembers | pivottracing/agent/src/main/java/edu/brown/cs/systems/pivottracing/agent/AdviceInstanceManager.java:101-107 | every entry that remove keeps is an old entry with another key |
| AdviceManager.InsertKeepsAscending | pivottracing/agent/src/main/java/edu/brown/cs/systems/pivottracing/agent/AdviceInstanceManager.java:67-91 | inserting at the insertion point keeps the keys ascending |
| AdviceManager.WithoutKeepsAscending | pivottracing/agent/src/main/java/edu/brown/cs/systems/pivottracing/agent/AdviceInstanceManager.java:94-116 | removing a key's entries keeps the keys ascending |
| AdviceManager.WithoutAsMap | pivottracing/agent/src/main/java/edu/brown/cs/systems/pivottracing/agent/AdviceInstanceManager.java:94-116 | removing a key's entries removes exactly that key from what the registry maps |
| AdviceManager.EntryInMap | pivottracing/agent/src/main/java/edu/brown/cs/systems/pivottracing/agent/AdviceInstanceManager.java:52-64 | with distinct keys, the entry a search finds is what the registry maps its key to |
| AdviceManager.ZipInsert | pivottracing/agent/src/main/java/edu/brown/cs/systems/pivottracing/agent/AdviceInstanceManager.java:67-91 | inserting into the key and advice arrays at one place inserts the pair there |
| AdviceManager.InsertAt | pivottracing/agent/src/main/java/edu/brown/cs/systems/pivottracing/agent/AdviceInstanceManager.java:72-88 | copying the keys below the new key, then the new entry, then the rest, inserts at the insertion point |
| AdviceManager.ActiveInstances.constructor | pivottracing/agent/src/main/java/edu/brown/cs/systems/pivottracing/agent/AdviceInstanceManager.java:46-49 | the registry holds the given arrays |
| AdviceManager.ActiveInstances.Lookup | pivottracing/agent/src/main/java/edu/brown/cs/systems/pivottracing/agent/AdviceInstanceManager.java:52-64 | binary search over ascending keys: nothing iff no entry has the key, otherwise an advice paired with that key |
| AdviceManager.ActiveInstances.Add | pivottracing/agent/src/main/java/edu/brown/cs/systems/pivottracing/agent/AdviceInstanceManager.java:67-91 | a fresh registry whose entries are the old ones with (key, advice) inserted at the insertion point; the original is untouched |
| AdviceManager.ActiveInstances.CopyBelow | pivottracing/agent/src/main/java/edu/brown/cs/systems/pivottracing/agent/AdviceInstanceManager.java:71-77 | copies exactly the leading entries whose keys are below the new key and stops at the insertion point |
| AdviceManager.ActiveInstances.CopyAbove | pivottracing/agent/src/main/java/edu/brown/cs/systems/pivottracing/agent/AdviceInstanceManager.java:79-88 | the new arrays are the old ones with the new key and advice spliced in at the insertion point |
| AdviceManager.ActiveInstances.Remove | pivottracing/agent/src/main/java/edu/brown/cs/systems/pivottracing/agent/AdviceInstanceManager.java:94-116 | a fresh registry holding exactly the entries with another key, in order; the original is untouched |
| AdviceManager.ActiveInstances.Extract | pivottracing/agent/src/main/java/edu/brown/cs/systems/pivottracing/agent/AdviceInstanceManager.java:99-107 | the loop packs the entries with another key, in order, at the front, and counts them |
| AdviceManager.CopyOf | pivottracing/agent/src/main/java/edu/brown/cs/systems/pivottracing/agent/AdviceInstanceManager.java:110-113 | a fresh array holding the first count elements |
| AdviceManager.Manager.constructor | pivottracing/agent/src/main/java/edu/brown/cs/systems/pivottracing/agent/AdviceInstanceManager.java:9-10 | an empty registry |
| AdviceManager.Manager.Register | pivottracing/agent/src/main/java/edu/brown/cs/systems/pivottracing/agent/AdviceInstanceManager.java:13-21 | returns the seed as a fresh id, unused before; the seed advances; the id now maps to the advice and nothing else changes |
| AdviceManager.Manager.Lookup | pivottracing/agent/src/main/java/edu/brown/cs/systems/pivottracing/agent/AdviceInstanceManager.java:24-26 | the advice the id maps to, or nothing when the id was never registered or has been removed |
| AdviceManager.Manager.Remove | pivottracing/agent/src/main/java/edu/brown/cs/systems/pivottracing/agent/AdviceInstanceManager.java:29-35 | the id maps to nothing afterwards and every other id is unchanged |
| AdviceManager.Appended | pivottracing/agent/src/main/java/edu/brown/cs/systems/pivottracing/agent/AdviceInstanceManager.java:13-20 | an id above every key is inserted last, keeps the keys strictly ascending and below the next seed, and is added to what the registry maps |
| AdviceManager.WithoutIncreasing | pivottracing/agent/src/main/java/edu/brown/cs/systems/pivottracing/agent/AdviceInstanceManager.java:94-116 | removing entries keeps distinct keys strictly ascending |
| SlotManager.AddSlots | retro/throttling/src/main/java/edu/brown/cs/systems/retro/throttling/mclock/SlotManager.java:62-107 | zero changes nothing; a negative delta is added to the deficit and schedules nothing; a positive delta first pays the deficit and then comes off the queue counter (which stops at Long.MIN_VALUE); the number returned is min(remaining delta, max(0, previous counter)), never negative and never above delta |
| SlotManager.AsWrittenAgreesWithoutUnderflow | retro/throttling/src/main/java/edu/brown/cs/systems/retro/throttling/mclock/SlotManager.java:89-106 | away from long underflow, the loop as written and the corrected update give the same counters and result |
| SlotManager.UnderflowSpinsForever | retro/throttling/src/main/java/edu/brown/cs/systems/retro/throttling/mclock/SlotManager.java:91-98 | with the counter at Long.MIN_VALUE + 1 and two slots, the loop as written never completes its compare-and-set, while the corrected update stops at Long.MIN_VALUE and schedules nothing |
| SlotManager.AddSlotsConserves | retro/throttling/src/main/java/edu/brown/cs/systems/retro/throttling/mclock/SlotManager.java:62-98 | away from overflow, adding delta slots lowers queue counter plus deficit by exactly delta |
| SlotManager.DeficitStaysNonNegative | retro/throttling/src/main/java/edu/brown/cs/systems/retro/throttling/mclock/SlotManager.java:74-87 | a non-negative deficit stays non-negative |
| SlotManager.SlotManager.constructor | retro/throttling/src/main/java/edu/brown/cs/systems/retro/throttling/mclock/SlotManager.java:24-27 | the counter starts at minus maxSlots (wrapped as a long), with no deficit |
| SlotManager.SlotManager.AddRequest | retro/throttling/src/main/java/edu/brown/cs/systems/retro/throttling/mclock/SlotManager.java:36-38 | the counter goes up by one (wrapping); the result is true iff it was negative before |
| SlotManager.SlotManager.AddSlotsTo | retro/throttling/src/main/java/edu/brown/cs/systems/retro/throttling/mclock/SlotManager.java:62-107 | the new counters and the returned count are exactly AddSlots of the old counters; maxSlots unchanged |
| SlotManager.SlotManager.AddSlot | retro/throttling/src/main/java/edu/brown/cs/systems/retro/throttling/mclock/SlotManager.java:47-49 | adds one slot; true iff it went to a waiting request, that is iff there was no deficit and the counter was positive |
| SlotManager.SlotManager.SetMaxSlots | retro/throttling/src/main/java/edu/brown/cs/systems/retro/throttling/mclock/SlotManager.java:56-60 | passes the difference (wrapped) through AddSlots, returns its count and stores the new maximum |
| SlotManager.BalanceKept | retro/throttling/src/main/java/edu/brown/cs/systems/retro/throttling/mclock/SlotManager.java:56-60 | queue counter + deficit + maxSlots is unchanged by setMaxSlots (away from overflow) |
| DynamicManager.PendingAdd | tracingplane/dynamic/src/main/java/edu/brown/cs/systems/dynamicinstrumentation/DynamicManager.java:88-94 | adding cancels a pending removal of m; otherwise m is queued to add; the classes to refresh are untouched |
| DynamicManager.PendingRemove | tracingplane/dynamic/src/main/java/edu/brown/cs/systems/dynamicinstrumentation/DynamicManager.java:96-102 | removing cancels a pending add of m; otherwise m is queued to remove; the classes to refresh are untouched |
| DynamicManager.AddThenRemove | tracingplane/dynamic/src/main/java/edu/brown/cs/systems/dynamicinstrumentation/DynamicManager.java:88-102 | add followed by remove of a modification not queued to add leaves the change set as it was |
| DynamicManager.RemoveThenAdd | tracingplane/dynamic/src/main/java/edu/brown/cs/systems/dynamicinstrumentation/DynamicManager.java:88-102 | remove followed by add of a modification not queued to remove leaves the change set as it was |
| DynamicManager.UnaffectedUnchanged | tracingplane/dynamic/src/main/java/edu/brown/cs/systems/dynamicinstrumentation/DynamicManager.java:104-137 | a class outside the affected set keeps exactly its installed modifications |
| DynamicManager.ClearUninstallsAll | tracingplane/dynamic/src/main/java/edu/brown/cs/systems/dynamicinstrumentation/DynamicManager.java:67-72 | after clear, every class that carried a modification is affected, and each affected class is handed nothing |
| DynamicManager.DropOne | tracingplane/dynamic/src/main/java/edu/brown/cs/systems/dynamicinstrumentation/DynamicManager.java:124-126 | m leaves each class it rewrites; other classes are untouched |
| DynamicManager.AddOne | tracingplane/dynamic/src/main/java/edu/brown/cs/systems/dynamicinstrumentation/DynamicManager.java:131-133 | m joins each class it rewrites; other classes are untouched |
| DynamicManager.DropEach | tracingplane/dynamic/src/main/java/edu/brown/cs/systems/dynamicinstrumentation/DynamicManager.java:122-127 | every class loses exactly its pending removals that rewrite it |
| DynamicManager.AddEach | tracingplane/dynamic/src/main/java/edu/brown/cs/systems/dynamicinstrumentation/DynamicManager.java:129-134 | every class gains exactly its pending additions that rewrite it |
| DynamicManager.DynamicManager.constructor | tracingplane/dynamic/src/main/java/edu/brown/cs/systems/dynamicinstrumentation/DynamicManager.java:20-26 | nothing pending, nothing installed |
| DynamicManager.DynamicManager.Add | tracingplane/dynamic/src/main/java/edu/brown/cs/systems/dynamicinstrumentation/DynamicManager.java:28-31 | the change set becomes PendingAdd of the old one; installed unchanged |
| DynamicManager.DynamicManager.Remove | tracingplane/dynamic/src/main/java/edu/brown/cs/systems/dynamicinstrumentation/DynamicManager.java:40-43 | the change set becomes PendingRemove of the old one; installed unchanged |
| DynamicManager.DynamicManager.AddAll | tracingplane/dynamic/src/main/java/edu/brown/cs/systems/dynamicinstrumentation/DynamicManager.java:33-38 | adds each modification in turn |
| DynamicManager.DynamicManager.RemoveAll | tracingplane/dynamic/src/main/java/edu/brown/cs/systems/dynamicinstrumentation/DynamicManager.java:45-50 | removes each modification in turn |
| DynamicManager.DynamicManager.Refresh | tracingplane/dynamic/src/main/java/edu/brown/cs/systems/dynamicinstrumentation/DynamicManager.java:52-55 | the class joins the classes to refresh; nothing else changes |
| DynamicManager.DynamicManager.Reset | tracingplane/dynamic/src/main/java/edu/brown/cs/systems/dynamicinstrumentation/DynamicManager.java:57-60 | every modification installed on the class is queued to remove; nothing else changes |
| DynamicManager.DynamicManager.Cancel | tracingplane/dynamic/src/main/java/edu/brown/cs/systems/dynamicinstrumentation/DynamicManager.java:155-159 | all three pending sets become empty; installed unchanged |
| DynamicManager.DynamicManager.Clear | tracingplane/dynamic/src/main/java/edu/brown/cs/systems/dynamicinstrumentation/DynamicManager.java:67-72 | nothing pending except the removal of every installed modification; installed becomes empty |
| DynamicManager.DynamicManager.AffectedClasses | tracingplane/dynamic/src/main/java/edu/brown/cs/systems/dynamicinstrumentation/DynamicManager.java:104-113 | the classes to refresh plus every class a pending addition or removal rewrites |
| DynamicManager.DynamicManager.Changes | tracingplane/dynamic/src/main/java/edu/brown/cs/systems/dynamicinstrumentation/DynamicManager.java:115-137 | one entry per affected class, holding its installed modifications minus the pending removals plus the pending additions |
| DynamicManager.DynamicManager.Unput | tracingplane/dynamic/src/main/java/edu/brown/cs/systems/dynamicinstrumentation/DynamicManager.java:142 | m leaves class c and an emptied class disappears; every other class is unchanged |
| DynamicManager.DynamicManager.Put | tracingplane/dynamic/src/main/java/edu/brown/cs/systems/dynamicinstrumentation/DynamicManager.java:147 | m joins class c; every other class is unchanged |
| DynamicManager.DynamicManager.UnputEach | tracingplane/dynamic/src/main/java/edu/brown/cs/systems/dynamicinstrumentation/DynamicManager.java:141-143 | m leaves every class it rewrites |
| DynamicManager.DynamicManager.PutEach | tracingplane/dynamic/src/main/java/edu/brown/cs/systems/dynamicinstrumentation/DynamicManager.java:146-148 | m joins every class it rewrites |
| DynamicManager.DynamicManager.Persist | tracingplane/dynamic/src/main/java/edu/brown/cs/systems/dynamicinstrumentation/DynamicManager.java:139-153 | every class now carries what Changes computed for it (unaffected classes keep theirs), no class is left empty, and nothing is pending |
| DynamicManager.DynamicManager.UnputAll | tracingplane/dynamic/src/main/java/edu/brown/cs/systems/dynamicinstrumentation/DynamicManager.java:140-144 | every pending removal leaves the classes it rewrites |
| DynamicManager.DynamicManager.PutAll | tracingplane/dynamic/src/main/java/edu/brown/cs/systems/dynamicinstrumentation/DynamicManager.java:145-149 | every pending addition joins the classes it rewrites |
| DynamicManager.DynamicManager.Install | tracingplane/dynamic/src/main/java/edu/brown/cs/systems/dynamicinstrumentation/DynamicManager.java:74-80 | without an agent nothing happens; with one, the agent is handed one entry per affected class; when the agent throws, the exception is reported and pending and installed stay as they were; otherwise installed then agrees with what it was handed, other classes unchanged, nothing pending |
| PivotTracingUtils.ShortBytes | pivottracing/common/src/main/java/edu/brown/cs/systems/pivottracing/PivotTracingUtils.java:35-37 | a Java short is written as two bytes, high byte first |
| PivotTracingUtils.ReadShort | pivottracing/common/src/main/java/edu/brown/cs/systems/pivottracing/PivotTracingUtils.java:40-47 | a short is read iff two bytes are left at the offset; the value is a short whose two-byte form is exactly those bytes |
| PivotTracingUtils.BagId | pivottracing/common/src/main/java/edu/brown/cs/systems/pivottracing/PivotTracingUtils.java:35-37 | four bytes: the query id's two bytes, then the advice id's |
| PivotTracingUtils.QueryId | pivottracing/common/src/main/java/edu/brown/cs/systems/pivottracing/PivotTracingUtils.java:40-42 | decodes iff the bag id has at least two bytes |
| PivotTracingUtils.AdviceId | pivottracing/common/src/main/java/edu/brown/cs/systems/pivottracing/PivotTracingUtils.java:45-47 | decodes iff the bag id has at least four bytes |
| PivotTracingUtils.ShortRoundTrip | pivottracing/common/src/main/java/edu/brown/cs/systems/pivottracing/PivotTracingUtils.java:35-47 | a short is recovered from its two bytes |
| PivotTracingUtils.BagIdRoundTrip | pivottracing/common/src/main/java/edu/brown/cs/systems/pivottracing/PivotTracingUtils.java:35-47 | round trip: queryId and adviceId recover both ids from bagId |
| PivotTracingUtils.BagIdFromIds | pivottracing/common/src/main/java/edu/brown/cs/systems/pivottracing/PivotTracingUtils.java:35-47 | every four-byte key is the bag id of the ids decoded from it, so bag ids and id pairs correspond one to one |
| PivotTracingUtils.Replace | pivottracing/common/src/main/java/edu/brown/cs/systems/pivottracing/PivotTracingUtils.java:27-32 | the loop applies one first-occurrence replacement per variable, in order |
| PivotTracingUtils.ReplaceFills | pivottracing/common/src/main/java/edu/brown/cs/systems/pivottracing/PivotTracingUtils.java:27-32 | with plain variables, the i-th "{}" of the text becomes the i-th variable, surplus variables are ignored and surplus "{}" stay |
| PivotTracingUtils.ReplaceFirstBehind | pivottracing/common/src/main/java/edu/brown/cs/systems/pivottracing/PivotTracingUtils.java:29 | a "{}"-free prefix not ending in '{' is not touched by a replacement |
| PivotTracingUtils.ReplaceEachBehind | pivottracing/common/src/main/java/edu/brown/cs/systems/pivottracing/PivotTracingUtils.java:28-30 | the same holds for the whole sequence of replacements |
| PivotTracingUtils.FindBehind | pivottracing/common/src/main/java/edu/brown/cs/systems/pivottracing/PivotTracingUtils.java:29 | such a prefix does not move the first "{}" of the text behind it |
| PivotTracingUtils.TupleString | pivottracing/common/src/main/java/edu/brown/cs/systems/pivottracing/PivotTracingUtils.java:49-51 | the printed tuple starts with '<' and ends with '>' |
| PivotTracingUtils.TupleStringReadable | pivottracing/common/src/main/java/edu/brown/cs/systems/pivottracing/PivotTracingUtils.java:49-51 | for a non-empty tuple whose element texts contain no ", ", the text between the brackets splits back into exactly the element texts (null printed as nothing) |
| TextSplit.FindFrom | xtrace/client/src/main/java/edu/brown/cs/systems/xtrace/reporting/XTraceReport.java:89 | the position found holds the separator and no earlier position at or after the start does; -1 when there is none |
| TextSplit.SplitOn | xtrace/client/src/main/java/edu/brown/cs/systems/xtrace/reporting/XTraceReport.java:89 | the split of a message at every "{}" has at least one token |
| TextSplit.SplitTokensFree | xtrace/client/src/main/java/edu/brown/cs/systems/xtrace/reporting/XTraceReport.java:89 | no token of a split contains the separator |
| TextSplit.JoinSplit | xtrace/client/src/main/java/edu/brown/cs/systems/xtrace/reporting/XTraceReport.java:89 | round trip: joining the tokens of a split with the separator gives back the text |
| TextSplit.SplitJoin | xtrace/client/src/main/java/edu/brown/cs/systems/xtrace/reporting/XTraceReport.java:89 | round trip: splitting a join of separator-free tokens gives back the tokens |
| TextSplit.FillWithoutVars | xtrace/client/src/main/java/edu/brown/cs/systems/xtrace/reporting/XTraceReport.java:97-108 | without variables every placeholder stays, so filling is joining |
| TextSplit.FillNoVars | xtrace/client/src/main/java/edu/brown/cs/systems/xtrace/reporting/XTraceReport.java:97-108 | a message filled with no variables is itself |
| XTraceReport.VarText | xtrace/client/src/main/java/edu/brown/cs/systems/xtrace/reporting/XTraceReport.java:103 | a null variable renders as "null" |
| XTraceReport.Consumed | xtrace/client/src/main/java/edu/brown/cs/systems/xtrace/reporting/XTraceReport.java:102-106 | the label consumes no variables without a message; otherwise one per placeholder while variables last |
| XTraceReport.PairsOfNonNull | xtrace/client/src/main/java/edu/brown/cs/systems/xtrace/reporting/XTraceReport.java:112-115 | with non-null keys, every two leftover variables make one (key, value) pair in order, and an odd trailing variable makes none |
| XTraceReport.AsWrittenWithEnoughVars | xtrace/client/src/main/java/edu/brown/cs/systems/xtrace/reporting/XTraceReport.java:97-106 | with a variable for every placeholder, the loop as written builds the intended label |
| XTraceReport.LabelDropsTrailingText | xtrace/client/src/main/java/edu/brown/cs/systems/xtrace/reporting/XTraceReport.java:102-106 | "x{}y" logged without variables is labelled "x" by the loop as written, whereas the intended label is "x{}y" |
| XTraceReport.MessageWithoutVars | xtrace/client/src/main/java/edu/brown/cs/systems/xtrace/reporting/XTraceReport.java:97-108 | a message logged without variables is its own label |
| XTraceReport.Report.constructor | xtrace/client/src/main/java/edu/brown/cs/systems/xtrace/reporting/XTraceReport.java:141-143 | a new report has no label and no pairs |
| XTraceReport.Report.Put | xtrace/client/src/main/java/edu/brown/cs/systems/xtrace/reporting/XTraceReport.java:130-136 | a null key is ignored; otherwise one pair is appended, key text and value text ("null" for a null value); the label is unchanged |
| XTraceReport.Report.SetMessage | xtrace/client/src/main/java/edu/brown/cs/systems/xtrace/reporting/XTraceReport.java:85-117 | a non-null message sets the label to the message with its placeholders filled in order; the variables not consumed go two at a time to put; a null message leaves the label unset |
| XTraceReport.Report.PutPairs | xtrace/client/src/main/java/edu/brown/cs/systems/xtrace/reporting/XTraceReport.java:112-114 | the leftover variables, two at a time, are put in order |
| XTraceReport.Substitute | xtrace/client/src/main/java/edu/brown/cs/systems/xtrace/reporting/XTraceReport.java:89-108 | the label is the message's placeholders filled in order (leftover placeholders kept as "{}"), and the count is the number of variables consumed |
| XTraceReport.LoggingExample | xtrace/client/src/main/java/edu/brown/cs/systems/xtrace/logging/XTraceLogger.java:18-19 | log("My name is {}", "Jon", "Age", 15) is labelled "My name is Jon" and carries the pair (Age, 15) |
| Series.InsertKeepsUsage | retro/visualization/src/main/resources/webui/js/Data.js:100-106 | a new point that copies its predecessor's usage (0 at the front) leaves the step function unchanged |
| Series.BumpedUsage | retro/visualization/src/main/resources/webui/js/Data.js:45-53 | adding c at every point whose time lies in [from, to) adds c to the step function exactly on [from, to), given that both ends are points |
| Series.SuffixKeepsUsage | retro/visualization/src/main/resources/webui/js/Data.js:36-41 | dropping leading points leaves the step function unchanged from the first kept point on |
| Series.WalkIsBump | retro/visualization/src/main/resources/webui/js/Data.js:48-52 | on a sorted series holding both ends, the walk along the next-links bumps exactly the points in [from, to) |
| Series.WalkUsage | retro/visualization/src/main/resources/webui/js/Data.js:45-53 | the walk adds c to the step function on [from, to) and nowhere else |
| Series.InsertInOrder | retro/visualization/src/main/resources/webui/js/Data.js:87-115 | inserting a point at a new time between its neighbours keeps the times sorted and unique, adds its time and keeps the step function |
| Series.InsertTimes | retro/visualization/src/main/resources/webui/js/Data.js:114 | the insertion adds exactly the new time |
| Series.InsertSorted | retro/visualization/src/main/resources/webui/js/Data.js:96-98 | inserting after the last earlier point keeps the times strictly ascending |
| Series.Series.constructor | retro/visualization/src/main/resources/webui/js/Data.js:15-26 | a new series has no points |
| Series.Series.AddPoint | retro/visualization/src/main/resources/webui/js/Data.js:87-115 | an existing time changes nothing; otherwise one point is inserted, the times stay sorted and unique and gain exactly this time, and the step function is unchanged |
| Series.Series.Find | retro/visualization/src/main/resources/webui/js/Data.js:48 | the position of the point with the time (the time-indexed map) |
| Series.Series.AddFrom | retro/visualization/src/main/resources/webui/js/Data.js:49-52 | the walk adds c to each point from the start that lies before to and has a successor; times and length are unchanged |
| Series.Series.AddData | retro/visualization/src/main/resources/webui/js/Data.js:45-53 | the times gain from and to, and the step function gains c exactly on [from, to) |
| Series.Series.Prune | retro/visualization/src/main/resources/webui/js/Data.js:32-43 | a series lying wholly before minvalue is kept whole and reported true; otherwise only leading points are dropped, only those whose second successor is before minvalue, and all of them: the third point left is at or after minvalue; at least two points remain when any are dropped, and the step function is unchanged from minvalue on; true iff nothing remains |
| StringSort.Sort | xtrace/visualization/src/main/resources/webui/html/interactive/js/kernels/WeisfeilerLehmanKernel.js:106 | the default sort's result is sorted in JavaScript string order and is a permutation of its input |
| StringSort.SortedUnique | xtrace/visualization/src/main/resources/webui/html/interactive/js/kernels/WeisfeilerLehmanKernel.js:106 | two sorted permutations of each other are equal, so the sort's result is fixed by the multiset of its input |
| StringSort.SortOrderFree | xtrace/visualization/src/main/resources/webui/html/interactive/js/kernels/WeisfeilerLehmanKernel.js:106 | the same strings in any order sort to the same sequence |
| StringSort.BelowTotal | xtrace/visualization/src/main/resources/webui/html/interactive/js/kernels/WeisfeilerLehmanKernel.js:106 | JavaScript string order is total |
| StringSort.BelowAntisymmetric | xtrace/visualization/src/main/resources/webui/html/interactive/js/kernels/WeisfeilerLehmanKernel.js:106 | JavaScript string order is antisymmetric |
| StringSort.BelowTransitive | xtrace/visualization/src/main/resources/webui/html/interactive/js/kernels/WeisfeilerLehmanKernel.js:106 | JavaScript string order is transitive |
| TextSplit.Join | xtrace/visualization/src/main/resources/webui/html/interactive/js/kernels/WeisfeilerLehmanKernel.js:106 | joining one string gives it back, and joining none gives "" |
| KernelGraphs.FieldEquals | xtrace/visualization/src/main/resources/webui/html/interactive/js/kernels/KernelGraph.js:7-14 | true exactly when the node's data has the field and one of its values equals the given value |
| KernelGraphs.FieldOneOf | xtrace/visualization/src/main/resources/webui/html/interactive/js/kernels/KernelGraph.js:16-21 | true exactly when the node's data has the field and one of its values is among the given values |
| KernelGraphs.NodeOfReport | xtrace/visualization/src/main/resources/webui/html/interactive/js/kernels/KernelGraph.js:27-31 | the node keeps the report as its data and the hash as its label; its id is the first X-Trace value after its first 18 characters, or empty when the value is shorter |
| KernelGraphs.KernelGraph.constructor | xtrace/visualization/src/main/resources/webui/html/interactive/js/kernels/KernelGraph.js:34-53 | the graph is the fold of the node list: each node under its id, with empty parent and child sets, filed under its label |
| KernelGraphs.BuiltKeyed | xtrace/visualization/src/main/resources/webui/html/interactive/js/kernels/KernelGraph.js:42-53 | the constructor stores every listed node under its own id with adjacency entries, and no other id |
| KernelGraphs.BuiltNoEdges | xtrace/visualization/src/main/resources/webui/html/interactive/js/kernels/KernelGraph.js:47-48 | the constructor adds no edge |
| KernelGraphs.BuiltIndexed | xtrace/visualization/src/main/resources/webui/html/interactive/js/kernels/KernelGraph.js:49-52 | from distinct ids the constructor builds a label index holding each node under its label and nothing else |
| KernelGraphs.BuiltFromList | xtrace/visualization/src/main/resources/webui/html/interactive/js/kernels/KernelGraph.js:42-46 | every node of the built graph is one of the listed nodes |
| KernelGraphs.BuiltWellFormed | xtrace/visualization/src/main/resources/webui/html/interactive/js/kernels/KernelGraph.js:34-53 | from distinct ids the constructor builds a well-formed graph without edges |
| KernelGraphs.KernelGraph.Link | xtrace/visualization/src/main/resources/webui/html/interactive/js/kernels/KernelGraph.js:56-61 | links p to c in both adjacency maps when both are nodes, and otherwise changes nothing |
| KernelGraphs.LinkedWellFormed | xtrace/visualization/src/main/resources/webui/html/interactive/js/kernels/KernelGraph.js:56-61 | linking keeps the graph well formed: edges symmetric, adjacency only between nodes |
| KernelGraphs.LinkedAdds | xtrace/visualization/src/main/resources/webui/html/interactive/js/kernels/KernelGraph.js:56-61 | when both ends are nodes the edge is present both ways afterwards; the nodes and labels never change; otherwise the graph is unchanged |
| KernelGraphs.KernelGraph.Remove | xtrace/visualization/src/main/resources/webui/html/interactive/js/kernels/KernelGraph.js:65-106 | the new state is the removal of n; for an id that is not a node the model changes nothing (see Left out) |
| KernelGraphs.RemovedWellFormed | xtrace/visualization/src/main/resources/webui/html/interactive/js/kernels/KernelGraph.js:65-106 | removing a node keeps the graph well formed |
| KernelGraphs.RemovedBridges | xtrace/visualization/src/main/resources/webui/html/interactive/js/kernels/KernelGraph.js:74-94 | after removing n every former parent of n is linked to every former child of n, in both maps |
| KernelGraphs.RemovedForgets | xtrace/visualization/src/main/resources/webui/html/interactive/js/kernels/KernelGraph.js:96-99 | after the removal n is no node and in no parent or child set |
| KernelGraphs.RemovedUnlabels | xtrace/visualization/src/main/resources/webui/html/interactive/js/kernels/KernelGraph.js:100-105 | after the removal n is in no label bucket, and its label's bucket is gone exactly when n was its only node |
| KernelGraphs.RemovedKeeps | xtrace/visualization/src/main/resources/webui/html/interactive/js/kernels/KernelGraph.js:65-106 | an edge between two other nodes survives the removal |
| KernelGraphs.RemoveAsWrittenDangles | xtrace/visualization/src/main/resources/webui/html/interactive/js/kernels/KernelGraph.js:76-94 | with a self-edge n->n and n->c, the loops as written leave c with the removed n as a parent, where the corrected removal leaves none |
| KernelGraphs.RemoveAsWrittenAgrees | xtrace/visualization/src/main/resources/webui/html/interactive/js/kernels/KernelGraph.js:76-94 | without a self-edge on n, the loops as written give the corrected removal, whatever order they visit the parents and children in |
| KernelGraphs.KernelGraph.Relabel | xtrace/visualization/src/main/resources/webui/html/interactive/js/kernels/KernelGraph.js:194-210 | node i moves from its old label's bucket, dropped when left empty, to the bucket of the new label |
| KernelGraphs.RelabelledWellFormed | xtrace/visualization/src/main/resources/webui/html/interactive/js/kernels/KernelGraph.js:194-210 | relabelling keeps the graph well formed, label index included |
| KernelGraphs.RelabelledOnlyLabel | xtrace/visualization/src/main/resources/webui/html/interactive/js/kernels/KernelGraph.js:194-210 | relabelling changes only the label of node i: the node set, other nodes and all edges stay the same |
| KernelGraphs.KernelGraph.Clone | xtrace/visualization/src/main/resources/webui/html/interactive/js/kernels/KernelGraph.js:177-188 | a fresh graph with the same id, nodes, labels and edges as this one |
| KernelGraphs.KernelGraph.CopyEdges | xtrace/visualization/src/main/resources/webui/html/interactive/js/kernels/KernelGraph.js:182-186 | linking each parent of each child into the copy rebuilds exactly the original's edges |
| KernelGraphs.KernelGraph.CopyParents | xtrace/visualization/src/main/resources/webui/html/interactive/js/kernels/KernelGraph.js:183-185 | linking every parent of one more child extends the partial copy by that child's incoming edges |
| KernelGraphs.KernelGraph.LinkAll | xtrace/visualization/src/main/resources/webui/html/interactive/js/kernels/KernelGraph.js:183-185 | linking each listed node to c adds exactly the edges from those nodes to c |
| KernelGraphs.BuiltNodesAt | xtrace/visualization/src/main/resources/webui/html/interactive/js/kernels/KernelGraph.js:177-181 | the constructor applied to the nodes under a listing of all ids stores every node back under its id |
| KernelGraphs.BuiltFromListing | xtrace/visualization/src/main/resources/webui/html/interactive/js/kernels/KernelGraph.js:177-181 | the copy built from the listed nodes is the original without edges |
| KernelGraphs.PartialAll | xtrace/visualization/src/main/resources/webui/html/interactive/js/kernels/KernelGraph.js:182-187 | once the parents of every child are linked the copy is the original |
| KernelGraphs.KernelGraph.NodeIds | xtrace/visualization/src/main/resources/webui/html/interactive/js/kernels/KernelGraph.js:108-110 | each node id exactly once |
| KernelGraphs.KernelGraph.ParentIds | xtrace/visualization/src/main/resources/webui/html/interactive/js/kernels/KernelGraph.js:120-125 | each parent id exactly once; none for an unknown id |
| KernelGraphs.KernelGraph.ChildIds | xtrace/visualization/src/main/resources/webui/html/interactive/js/kernels/KernelGraph.js:135-140 | each child id exactly once; none for an unknown id |
| KernelGraphs.KernelGraph.NeighbourIds | xtrace/visualization/src/main/resources/webui/html/interactive/js/kernels/KernelGraph.js:150-152 | each parent id once, followed by each child id once |
| KernelGraphs.KernelGraph.ParentLabels | xtrace/visualization/src/main/resources/webui/html/interactive/js/kernels/KernelGraph.js:127-133 | the parents' labels, with one entry per parent |
| KernelGraphs.KernelGraph.ChildLabels | xtrace/visualization/src/main/resources/webui/html/interactive/js/kernels/KernelGraph.js:142-148 | the children's labels, with one entry per child |
| KernelGraphs.KernelGraph.NeighbourLabels | xtrace/visualization/src/main/resources/webui/html/interactive/js/kernels/KernelGraph.js:158-160 | the children's labels together with the parents' labels, one entry per neighbour |
| KernelGraphs.KernelGraph.Labels | xtrace/visualization/src/main/resources/webui/html/interactive/js/kernels/KernelGraph.js:162-164 | each label in use exactly once |
| KernelGraphs.KernelGraph.NodeIdsForLabel | xtrace/visualization/src/main/resources/webui/html/interactive/js/kernels/KernelGraph.js:166-171 | exactly the ids of the nodes carrying the label, each once; none for an unused label |
| KernelGraphs.KernelGraph.LabelCount | xtrace/visualization/src/main/resources/webui/html/interactive/js/kernels/KernelGraph.js:173-175 | the number of nodes carrying the label |
| KernelGraphs.BucketIsLabelled | xtrace/visualization/src/main/resources/webui/html/interactive/js/kernels/KernelGraph.js:166-175 | a label's bucket holds exactly the nodes with that label, and an unused label has none |
| KernelGraphs.IndexUnique | xtrace/visualization/src/main/resources/webui/html/interactive/js/kernels/KernelGraph.js:39 | the label index is determined by the nodes |
| KernelGraphs.ListingLabels | xtrace/visualization/src/main/resources/webui/html/interactive/js/kernels/KernelGraph.js:131-160 | any listing of a set of nodes gives the same labels with the same multiplicities, so the order of Object.keys does not matter |
| KernelGraphs.ReportNodes | xtrace/visualization/src/main/resources/webui/html/interactive/js/kernels/KernelGraph.js:218 | one node per report, in order, each built from its report |
| KernelGraphs.FromJSON | xtrace/visualization/src/main/resources/webui/html/interactive/js/kernels/KernelGraph.js:217-234 | a fresh well-formed graph holding one node per report except the merge nodes, and no node with operation merge |
| KernelGraphs.LinkEveryEdge | xtrace/visualization/src/main/resources/webui/html/interactive/js/kernels/KernelGraph.js:220-227 | linking every report's edges keeps the graph well formed and its nodes unchanged |
| KernelGraphs.RemoveMerges | xtrace/visualization/src/main/resources/webui/html/interactive/js/kernels/KernelGraph.js:228-232 | the merge nodes leave the graph, which stays well formed |
| KernelGraphs.MergesGone | xtrace/visualization/src/main/resources/webui/html/interactive/js/kernels/KernelGraph.js:228-232 | once the merge ids are taken out no node with operation merge is left |
| KernelGraphs.SpliceEach | xtrace/visualization/src/main/resources/webui/html/interactive/js/kernels/KernelGraph.js:74-94 | every set under a key in the given set loses n and gains the other side's set; the rest of the map is unchanged |
| WLKernel.DepthOf | xtrace/visualization/src/main/resources/webui/html/interactive/js/kernels/WeisfeilerLehmanKernel.js:2 | a positive depth is kept; a missing, zero or negative depth becomes the default of 4 |
| WLKernel.LabelTextInjective | xtrace/visualization/src/main/resources/webui/html/interactive/js/kernels/WeisfeilerLehmanKernel.js:17 | distinct label numbers give distinct label texts when used as node labels |
| WLKernel.CanonicalOrderFree | xtrace/visualization/src/main/resources/webui/html/interactive/js/kernels/WeisfeilerLehmanKernel.js:106 | the canonical label depends on the neighbour labels only as a multiset, because they are sorted first |
| WLKernel.CanonicalIsKey | xtrace/visualization/src/main/resources/webui/html/interactive/js/kernels/WeisfeilerLehmanKernel.js:106 | the canonical label of a label and a list of neighbour labels is the key of the label and the list's multiset |
| WLKernel.LabelGenerator.constructor | xtrace/visualization/src/main/resources/webui/html/interactive/js/kernels/WeisfeilerLehmanKernel.js:93-96 | a new generator has an empty memo and seed 0 |
| WLKernel.LabelGenerator.IssuedInjective | xtrace/visualization/src/main/resources/webui/html/interactive/js/kernels/WeisfeilerLehmanKernel.js:98-114 | distinct canonical labels are never given the same number |
| WLKernel.LabelGenerator.Next | xtrace/visualization/src/main/resources/webui/html/interactive/js/kernels/WeisfeilerLehmanKernel.js:98-100 | returns the seed and increments it, leaving the memo alone |
| WLKernel.LabelGenerator.Relabel | xtrace/visualization/src/main/resources/webui/html/interactive/js/kernels/WeisfeilerLehmanKernel.js:102-114 | returns the number remembered for the canonical label; a label seen before changes nothing, and a new one gets the next seed, which is remembered |
| WLKernel.RoundExtends | xtrace/visualization/src/main/resources/webui/html/interactive/js/kernels/WeisfeilerLehmanKernel.js:7-30 | a relabelling round stays valid once the shared memo has grown, so earlier rounds agree with later ones |
| WLKernel.RoundOf | xtrace/visualization/src/main/resources/webui/html/interactive/js/kernels/WeisfeilerLehmanKernel.js:7-30 | the relabel loop followed by the prune loop make one round: each surviving node keeps its data and carries the number for its canonical label, and looking up or down the edges are the original's between surviving nodes |
| WLKernel.RoundDetermined | xtrace/visualization/src/main/resources/webui/html/interactive/js/kernels/WeisfeilerLehmanKernel.js:7-30 | a round is fixed by the graph and the memo: two well-formed rounds of one graph are the same graph |
| WLKernel.RoundsDetermined | xtrace/visualization/src/main/resources/webui/html/interactive/js/kernels/WeisfeilerLehmanKernel.js:44-52 | two runs of well-formed rounds from the same pair of graphs with one memo are the same runs, so the base kernel is summed over the same graphs |
| WLKernel.RemovedKeepsEdges | xtrace/visualization/src/main/resources/webui/html/interactive/js/kernels/WeisfeilerLehmanKernel.js:21-27 | removing a node the directional round drops leaves exactly the original's edges between the nodes left: it has no parents (or children) to splice |
| WLKernel.SameNewLabel | xtrace/visualization/src/main/resources/webui/html/interactive/js/kernels/WeisfeilerLehmanKernel.js:7-18 | after a round with one generator, two nodes of either graph carry the same label exactly when their canonical labels agree: the old label, ':' and the sorted neighbour labels joined by ',' give the same text |
| WLKernel.BothKeepsGraph | xtrace/visualization/src/main/resources/webui/html/interactive/js/kernels/WeisfeilerLehmanKernel.js:21-22 | in "both" mode a round keeps every node and every edge |
| WLKernel.PruneAsWrittenDropsAll | xtrace/visualization/src/main/resources/webui/html/interactive/js/kernels/WeisfeilerLehmanKernel.js:21-27 | as written, looking up or down, the prune looks up the node object instead of its id and removes every node |
| WLKernel.ChainExampleDropped | xtrace/visualization/src/main/resources/webui/html/interactive/js/kernels/WeisfeilerLehmanKernel.js:21-27 | on the graph a->b looking up, b has a parent and should stay, but the prune as written removes it |
| WLKernel.Ratio | xtrace/visualization/src/main/resources/webui/html/interactive/js/kernels/WeisfeilerLehmanKernel.js:66-67 | the count ratio lies in [0, 1], is 0 exactly when the other graph lacks the label, and is 1 for equal counts |
| WLKernel.RatioSymmetric | xtrace/visualization/src/main/resources/webui/html/interactive/js/kernels/WeisfeilerLehmanKernel.js:66-67 | the ratio is the same whichever graph is "self" |
| WLKernel.Contribution | xtrace/visualization/src/main/resources/webui/html/interactive/js/kernels/WeisfeilerLehmanKernel.js:66-70 | a node earns 0 when either graph lacks its label, otherwise a value in (0.5, 1], and exactly 1 for equal counts |
| WLKernel.Credit | xtrace/visualization/src/main/resources/webui/html/interactive/js/kernels/WeisfeilerLehmanKernel.js:68-71 | each listed node has the label appended and the contribution added; no other entry changes |
| WLKernel.WeisfeilerLehmanKernel.constructor | xtrace/visualization/src/main/resources/webui/html/interactive/js/kernels/WeisfeilerLehmanKernel.js:1-5 | the depth is normalised, the base kernel kept and a fresh generator with an empty memo created |
| WLKernel.WeisfeilerLehmanKernel.Relabel | xtrace/visualization/src/main/resources/webui/html/interactive/js/kernels/WeisfeilerLehmanKernel.js:7-30 | returns a fresh graph that is one round of relabelling of the input (surviving nodes with their data and new labels, and the input's edges between them); the memo only grows |
| WLKernel.WeisfeilerLehmanKernel.CloneRelabelled | xtrace/visualization/src/main/resources/webui/html/interactive/js/kernels/WeisfeilerLehmanKernel.js:9-18 | the clone keeps the nodes and edges and every node gets the number of its canonical label |
| WLKernel.WeisfeilerLehmanKernel.RelabelAll | xtrace/visualization/src/main/resources/webui/html/interactive/js/kernels/WeisfeilerLehmanKernel.js:12-18 | after the loop every node of the copy carries the number for its canonical label in the original; the edges are untouched |
| WLKernel.WeisfeilerLehmanKernel.RelabelOne | xtrace/visualization/src/main/resources/webui/html/interactive/js/kernels/WeisfeilerLehmanKernel.js:13-17 | node x of the copy gets the number for its canonical label and nothing else in the copy changes |
| WLKernel.NeighbourLabelsOf | xtrace/visualization/src/main/resources/webui/html/interactive/js/kernels/WeisfeilerLehmanKernel.js:13-16 | the neighbour labels of the chosen direction, as a multiset |
| WLKernel.Trim | xtrace/visualization/src/main/resources/webui/html/interactive/js/kernels/WeisfeilerLehmanKernel.js:20-27 | after the prune the copy is a complete round of the original: looking up or down, the surviving nodes and exactly the original's edges between them |
| WLKernel.Prune | xtrace/visualization/src/main/resources/webui/html/interactive/js/kernels/WeisfeilerLehmanKernel.js:21-27 | a node stays exactly when it has a parent (looking up) or a child (looking down) in the original; staying nodes are unchanged, and the edges left are exactly the original's between staying nodes |
| WLKernel.PruneOne | xtrace/visualization/src/main/resources/webui/html/interactive/js/kernels/WeisfeilerLehmanKernel.js:22-26 | the node is removed exactly when it has no neighbour in the looked-at direction, and the copy's new state, parents and children included, is the removal of that node |
| WLKernel.WeisfeilerLehmanKernel.DoCalculate | xtrace/visualization/src/main/resources/webui/html/interactive/js/kernels/WeisfeilerLehmanKernel.js:44-52 | the score is the base kernel summed over depth successive relabelling rounds of both graphs, divided by depth; every round's graph is well formed, so by RoundsDetermined the rounds, and the score, are fixed by the two graphs and the memo |
| WLKernel.WeisfeilerLehmanKernel.NextRound | xtrace/visualization/src/main/resources/webui/html/interactive/js/kernels/WeisfeilerLehmanKernel.js:46-50 | one more round on each graph, well formed, adds the base kernel of the new pair to the running score |
| WLKernel.WeisfeilerLehmanKernel.RelabelBoth | xtrace/visualization/src/main/resources/webui/html/interactive/js/kernels/WeisfeilerLehmanKernel.js:47-48 | both graphs are relabelled with one memo into well-formed graphs, and both results are rounds (nodes, labels and edges) under the final memo |
| WLKernel.WeisfeilerLehmanKernel.Calculate | xtrace/visualization/src/main/resources/webui/html/interactive/js/kernels/WeisfeilerLehmanKernel.js:32-34 | the kernel averaged over depth well-formed rounds looking both ways |
| WLKernel.WeisfeilerLehmanKernel.CalculateForwards | xtrace/visualization/src/main/resources/webui/html/interactive/js/kernels/WeisfeilerLehmanKernel.js:36-38 | the kernel averaged over depth well-formed rounds looking down, each round keeping the previous graph's edges among the nodes with children |
| WLKernel.WeisfeilerLehmanKernel.CalculateBackwards | xtrace/visualization/src/main/resources/webui/html/interactive/js/kernels/WeisfeilerLehmanKernel.js:40-42 | the kernel averaged over depth well-formed rounds looking up, each round keeping the previous graph's edges among the nodes with parents |
| WLKernel.WeisfeilerLehmanKernel.NodeStability | xtrace/visualization/src/main/resources/webui/html/interactive/js/kernels/WeisfeilerLehmanKernel.js:54-88 | every node of each graph has an entry; it holds at most depth labels (exactly depth looking both ways), starting with its own label, and a score between 0 and its number of labels |
| WLKernel.WeisfeilerLehmanKernel.StabilityRound | xtrace/visualization/src/main/resources/webui/html/interactive/js/kernels/WeisfeilerLehmanKernel.js:63-85 | scoring then relabelling both graphs keeps the per-node results stable for one more round |
| WLKernel.AddRound | xtrace/visualization/src/main/resources/webui/html/interactive/js/kernels/WeisfeilerLehmanKernel.js:65-72 | every current node gets its label appended and earns the contribution for its label's counts; entries of removed nodes are unchanged |
| WLKernel.ScoreRound | xtrace/visualization/src/main/resources/webui/html/interactive/js/kernels/WeisfeilerLehmanKernel.js:65-81 | one round's scoring keeps the per-node results stable |
| WLKernel.StableStep | xtrace/visualization/src/main/resources/webui/html/interactive/js/kernels/WeisfeilerLehmanKernel.js:65-81 | crediting a round raises the label count by one for present nodes and keeps each score within its label count |
| WLKernel.Blank | xtrace/visualization/src/main/resources/webui/html/interactive/js/kernels/WeisfeilerLehmanKernel.js:59-60 | every node id starts with no labels and score 0 |
| XTraceReports.DropTrailingEmptyNone | xtrace/visualization/src/main/resources/webui/cgi-bin/lib/reports.rb:177 | Ruby's split leaves nothing exactly when every piece is empty |
| XTraceReports.DropTrailingEmptyCons | xtrace/visualization/src/main/resources/webui/cgi-bin/lib/reports.rb:177 | a leading piece survives the split unless it and every later piece are empty |
| XTraceReports.AfterLast | xtrace/visualization/src/main/resources/webui/cgi-bin/lib/reports.rb:181 | the text after the last occurrence of the character is a colon-free suffix, preceded by that character when shorter than the input |
| XTraceReports.KeyValue | xtrace/visualization/src/main/resources/webui/cgi-bin/lib/reports.rb:181 | a line fails to match exactly when it holds no colon followed by a space |
| XTraceReports.KeyValueShape | xtrace/visualization/src/main/resources/webui/cgi-bin/lib/reports.rb:181-182 | a matched line is colon-terminated text, the colon-free key, ": " and the value, with no earlier ": " |
| XTraceReports.KeyValueOfLine | xtrace/visualization/src/main/resources/webui/cgi-bin/lib/reports.rb:181-182 | a colon-free key followed by ": " and any value gives back that key and value |
| XTraceReports.DropBlanks | xtrace/visualization/src/main/resources/webui/cgi-bin/lib/reports.rb:179 | the line without its leading spaces and tabs, a suffix of it that starts with neither |
| XTraceReports.Kept | xtrace/visualization/src/main/resources/webui/cgi-bin/lib/reports.rb:179 | keeps exactly the lines that are not stack-trace lines |
| XTraceReports.HeaderLineIgnored | xtrace/visualization/src/main/resources/webui/cgi-bin/lib/reports.rb:177-179 | whatever the first line of a report says, only the lines after it are parsed |
| XTraceReports.FlagsValue | xtrace/visualization/src/main/resources/webui/cgi-bin/lib/reports.rb:186 | to_i(16) of the two flag characters lies between -15 and 255 |
| XTraceReports.OpIdLength | xtrace/visualization/src/main/resources/webui/cgi-bin/lib/reports.rb:187 | the operation id is 16 characters long when flag bit 8 is set, otherwise 8 |
| XTraceReports.TaskIdOf | xtrace/visualization/src/main/resources/webui/cgi-bin/lib/reports.rb:188 | the task id is nil exactly when the value is shorter than 2, and otherwise text starting at character 2 |
| XTraceReports.OpIdOf | xtrace/visualization/src/main/resources/webui/cgi-bin/lib/reports.rb:189 | the operation id is nil exactly when the value is shorter than the id length, and otherwise the value's last 8 or 16 characters |
| XTraceReports.MetadataRoundTrip | xtrace/visualization/src/main/resources/webui/cgi-bin/lib/reports.rb:185-189 | decoding flags, task id and an operation id of the length the flags call for gives back the task id and the operation id |
| XTraceReports.EdgeNil | xtrace/visualization/src/main/resources/webui/cgi-bin/lib/reports.rb:191 | an edge is nil exactly when its value is all commas |
| XTraceReports.EdgeFirstToken | xtrace/visualization/src/main/resources/webui/cgi-bin/lib/reports.rb:191 | an edge is the value up to its first comma |
| XTraceReports.AbsorbFields | xtrace/visualization/src/main/resources/webui/cgi-bin/lib/reports.rb:196-200 | one line appends its value to the list of its lower-cased key, starting the list when there is none |
| XTraceReports.AbsorbMetadata | xtrace/visualization/src/main/resources/webui/cgi-bin/lib/reports.rb:185-189 | an X-Trace line resets both ids from its value; any other line keeps them |
| XTraceReports.AbsorbEdges | xtrace/visualization/src/main/resources/webui/cgi-bin/lib/reports.rb:190-191 | an edge line appends its first token to the edges; any other line keeps them |
| XTraceReports.FieldsInOrder | xtrace/visualization/src/main/resources/webui/cgi-bin/lib/reports.rb:180-200 | every key present holds all the values written under it, in order, and a key nobody wrote is absent |
| XTraceReports.EdgesInOrder | xtrace/visualization/src/main/resources/webui/cgi-bin/lib/reports.rb:180-191 | the edges are the first tokens of the edge values, in order |
| XTraceReports.MetadataFromLast | xtrace/visualization/src/main/resources/webui/cgi-bin/lib/reports.rb:180-189 | the task and operation ids come from the last X-Trace value, and are nil without one |
| XTraceReports.Report.constructor | xtrace/visualization/src/main/resources/webui/cgi-bin/lib/reports.rb:170-205 | the report keeps its text and holds what absorbing its body lines one at a time leaves |
| XTraceReports.Report.AbsorbLine | xtrace/visualization/src/main/resources/webui/cgi-bin/lib/reports.rb:180-203 | the report's new state is the absorption of one line into its old state |
| XTraceReports.IndexReports | xtrace/visualization/src/main/resources/webui/cgi-bin/lib/reports.rb:9-15 | each id maps to the last report carrying it, every report's id is indexed, and the duplicate count is the number of reports minus the number of distinct ids |
| XTraceReports.ParentsOf | xtrace/visualization/src/main/resources/webui/cgi-bin/lib/reports.rb:19-20 | the parents are exactly the reports that the resolvable edges name |
| XTraceReports.LinkChildren | xtrace/visualization/src/main/resources/webui/cgi-bin/lib/reports.rb:22 | each report's children are, in report order, the reports naming it as a parent, once per naming |
| XTraceReports.ChildrenMirrorParents | xtrace/visualization/src/main/resources/webui/cgi-bin/lib/reports.rb:18-22 | c is a child of p exactly as often as c names p as a parent, so c is a child of p exactly when p is a parent of c |
| XTraceReports.AttachChild | xtrace/visualization/src/main/resources/webui/cgi-bin/lib/reports.rb:22 | one report is appended to the children of each of its parents, once per naming |
| XTraceReports.Roots | xtrace/visualization/src/main/resources/webui/cgi-bin/lib/reports.rb:25 | exactly the reports without parents, in increasing order |
| XTraceReports.VisitPostorder | xtrace/visualization/src/main/resources/webui/cgi-bin/lib/reports.rb:45-58 | the traversal visits each report reachable from the roots exactly once and no other |
| XTraceReports.AssignIndices | xtrace/visualization/src/main/resources/webui/cgi-bin/lib/reports.rb:28-29 | the last visited report gets N-1, the one before N-2, and so on; the indices are distinct and below N, and unvisited reports get none |
| XTraceReports.Number | xtrace/visualization/src/main/resources/webui/cgi-bin/lib/reports.rb:27-29 | a report gets an index exactly when it is reachable from a root; the indices are distinct and below N |
| XTraceReports.Link | xtrace/visualization/src/main/resources/webui/cgi-bin/lib/reports.rb:8-25 | the index by id, the duplicate count, parents from resolvable edges, children mirroring parents, and the roots |
| XTraceReports.ParseReports | xtrace/visualization/src/main/resources/webui/cgi-bin/lib/reports.rb:5 | each text becomes a fresh report holding what its lines say |
| XTraceReports.Build | xtrace/visualization/src/main/resources/webui/cgi-bin/lib/reports.rb:4-34 | the reports in text order, each holding its text's fields, edges and ids; the first report's task id; the index keeping each operation id's last report, and the count of reports it leaves out; each report's parents are its resolvable edges, its children the reports naming it (once per naming, in report order), the roots the parentless reports; and distinct numbers below N for exactly the reports reachable from a root |
| XTraceReports.Shape | xtrace/visualization/src/main/resources/webui/cgi-bin/lib/reports.rb:8-29 | the index keeping each operation id's last report and the count of reports it leaves out; parents from the resolvable edges, children that mirror them in report order, the parentless roots, and distinct numbers below N for exactly the reports reachable from a root |
| XTraceReports.Trace.constructor | xtrace/visualization/src/main/resources/webui/cgi-bin/lib/reports.rb:4-34 | the trace's fields as built from the text split at blank lines: the reports carry the texts in order; the first report's task id; the index by last report per id with the duplicate count; parents from the edges, mirrored children, the parentless roots; distinct numbers below N for exactly the reachable reports |
| XTraceReports.Next | xtrace/visualization/src/main/resources/webui/cgi-bin/lib/reports.rb:230-242 | finds a descendant, itself included, that satisfies the predicate, itself when it does; finds none only when no descendant does |
| XTraceReports.Reversed | xtrace/visualization/src/main/resources/webui/cgi-bin/lib/reports.rb:238 | the children are pushed last first, so they are popped in order |
| XTraceReports.TraversalEnds | xtrace/visualization/src/main/resources/webui/cgi-bin/lib/reports.rb:45-58 | when the stack is empty the order lists exactly the reports reachable from the roots, once each |
| XTraceReports.NextEnds | xtrace/visualization/src/main/resources/webui/cgi-bin/lib/reports.rb:230-242 | when the search stack is empty no descendant satisfies the predicate |
| Baggage.ViewDetermines | tracingplane/client/src/test/java/edu/brown/cs/systems/baggage/BaggageImplTest.java:29-42 | two stored baggages with the same values under every namespace and key are equal, so the values are the whole state |
| Baggage.NamespaceHolds | tracingplane/client/src/test/java/edu/brown/cs/systems/baggage/BaggageImplTest.java:29-42 | in a stored baggage a namespace is present exactly when some key in it has a value |
| Baggage.WithValuesView | tracingplane/client/src/main/java/edu/brown/cs/systems/baggage/BaggageImpl.java:164-220 | setting the values of one namespace and key keeps the baggage stored and changes no other values |
| Baggage.UnionOf | tracingplane/client/src/main/java/edu/brown/cs/systems/baggage/BaggageImpl.java:264 | the union of two namespaces has every key of either, holding the values of both |
| Baggage.MoveOntoItselfLoses | tracingplane/client/src/main/java/edu/brown/cs/systems/baggage/BaggageImpl.java:257-266 | as written, moving a namespace onto itself removes it, and values it held are lost |
| Baggage.MoveAsWrittenElsewhere | tracingplane/client/src/main/java/edu/brown/cs/systems/baggage/BaggageImpl.java:257-266 | between two different namespaces the code as written empties the source and gives the target the union of both |
| Baggage.MergedIntoView | tracingplane/client/src/main/java/edu/brown/cs/systems/baggage/BaggageImpl.java:274-281 | merging one namespace keeps the baggage stored and adds its values under that namespace only |
| Baggage.MergeStep | tracingplane/client/src/main/java/edu/brown/cs/systems/baggage/BaggageImpl.java:274-281 | merging one more of the other side's namespaces extends the merged part by that namespace |
| Baggage.ReplacedNamespace | tracingplane/client/src/main/java/edu/brown/cs/systems/baggage/BaggageImpl.java:207-219 | the namespace replace builds is the old one without the key, plus the key with the new values when there are any, and is removed when empty |
| Baggage.BaggageImpl.constructor | tracingplane/client/src/main/java/edu/brown/cs/systems/baggage/BaggageImpl.java:24-26 | a new baggage is empty and stored |
| Baggage.BaggageImpl.Contains | tracingplane/client/src/main/java/edu/brown/cs/systems/baggage/BaggageImpl.java:129-135 | true exactly when neither argument is null and the key has a value in the namespace |
| Baggage.BaggageImpl.HasNamespace | tracingplane/client/src/main/java/edu/brown/cs/systems/baggage/BaggageImpl.java:141-143 | true exactly when the namespace is not null and some key in it has a value |
| Baggage.BaggageImpl.Get | tracingplane/client/src/main/java/edu/brown/cs/systems/baggage/BaggageImpl.java:150-158 | the values under the namespace and key; none when either is null |
| Baggage.BaggageImpl.Keys | tracingplane/client/src/main/java/edu/brown/cs/systems/baggage/BaggageImpl.java:242-250 | exactly the keys of the namespace that have values; none for a null namespace |
| Baggage.BaggageImpl.IsEmpty | tracingplane/client/src/main/java/edu/brown/cs/systems/baggage/BaggageImpl.java:287-289 | true exactly when no namespace and key holds a value |
| Baggage.BaggageImpl.Remove | tracingplane/client/src/main/java/edu/brown/cs/systems/baggage/BaggageImpl.java:164-174 | the key loses all its values, its namespace goes when left empty, and nothing else changes; a null argument changes nothing |
| Baggage.BaggageImpl.RemoveAll | tracingplane/client/src/main/java/edu/brown/cs/systems/baggage/BaggageImpl.java:179-183 | the namespace loses all its values and nothing else changes |
| Baggage.BaggageImpl.Replace | tracingplane/client/src/main/java/edu/brown/cs/systems/baggage/BaggageImpl.java:191-199 | a null value removes the key; otherwise the key holds exactly that value; nothing else changes |
| Baggage.BaggageImpl.ReplaceAll | tracingplane/client/src/main/java/edu/brown/cs/systems/baggage/BaggageImpl.java:207-220 | the key holds exactly the non-null values given, a null list removes it, and a namespace left empty is removed |
| Baggage.BaggageImpl.Add | tracingplane/client/src/main/java/edu/brown/cs/systems/baggage/BaggageImpl.java:227-231 | the value joins the key's values; a null namespace, key or value changes nothing |
| Baggage.BaggageImpl.MoveEntries | tracingplane/client/src/main/java/edu/brown/cs/systems/baggage/BaggageImpl.java:257-266 | the source namespace is empty afterwards and the target holds the union of both; moving onto itself changes nothing |
| Baggage.BaggageImpl.Merge | tracingplane/client/src/main/java/edu/brown/cs/systems/baggage/BaggageImpl.java:271-284 | every namespace and key holds the union of both sides' values; a null other changes nothing |
| Baggage.BaggageImpl.MergeNamespace | tracingplane/client/src/main/java/edu/brown/cs/systems/baggage/BaggageImpl.java:275-280 | one namespace of the other side is put in when absent and united key by key otherwise |
| Baggage.BaggageImpl.Split | tracingplane/client/src/main/java/edu/brown/cs/systems/baggage/BaggageImpl.java:294-303 | a fresh baggage holding a copy of the contents |
| Baggage.NonNull | tracingplane/client/src/main/java/edu/brown/cs/systems/baggage/BaggageImpl.java:213-214 | exactly the non-null values of the list |
| Baggage.NonNullValues | tracingplane/client/src/main/java/edu/brown/cs/systems/baggage/BaggageImpl.java:213-214 | the loop collects exactly the non-null values |
| Bags.ValueTexts | pivottracing/agent/src/main/java/edu/brown/cs/systems/pivottracing/agent/advice/baggage/BagTuples.java:56-58 | each field becomes its String.valueOf text, in order |
| Bags.RenderTuple | pivottracing/agent/src/main/java/edu/brown/cs/systems/pivottracing/agent/advice/baggage/BagTuples.java:56-58 | the loop gives the texts of all the tuple's fields, in order |
| Bags.Rendered | pivottracing/agent/src/main/java/edu/brown/cs/systems/pivottracing/agent/advice/baggage/BagTuples.java:53-59 | keeps only the tuples of the expected length, each as the texts of its fields |
| Bags.OfSize | pivottracing/agent/src/main/java/edu/brown/cs/systems/pivottracing/agent/advice/baggage/BagTuples.java:95-99 | keeps only the tuples of the expected length, taken from the input |
| Bags.Namespace.Has | pivottracing/agent/src/main/java/edu/brown/cs/systems/pivottracing/agent/advice/baggage/BagTuples.java:38 | true exactly when some bag is stored under the id |
| Bags.Namespace.Remove | pivottracing/agent/src/main/java/edu/brown/cs/systems/pivottracing/agent/advice/baggage/BagTuples.java:63 | nothing is stored under the id afterwards; other ids are unchanged |
| Bags.Namespace.Replace | pivottracing/agent/src/main/java/edu/brown/cs/systems/pivottracing/agent/advice/baggage/BagTuples.java:71 | the given bag is the only one stored under the id; other ids are unchanged |
| BagTuples.PackedStores | pivottracing/agent/src/main/java/edu/brown/cs/systems/pivottracing/agent/advice/baggage/BagTuples.java:36-72 | after PACK the id holds the tuples it held followed by the new tuples of the right length, and is absent exactly when that leaves none |
| BagTuples.PackTwice | pivottracing/agent/src/test/java/edu/brown/cs/systems/pivottracing/agent/advice/baggage/TestBagTuples.java:133-174 | two packs in a row store the same tuples as one pack of both lists, so repeated packs concatenate |
| BagTuples.PackThenUnpack | pivottracing/agent/src/main/java/edu/brown/cs/systems/pivottracing/agent/advice/baggage/BagTuples.java:36-104 | UNPACK after PACK returns the earlier active tuples, then the new ones of the right length, then the archived ones of the right length |
| BagTuples.MergeActive | pivottracing/agent/src/main/java/edu/brown/cs/systems/pivottracing/agent/advice/baggage/BagTuples.java:38-50 | the tuples of all the active tuple bags, in order, and the version id of the last of them |
| BagTuples.AppendRendered | pivottracing/agent/src/main/java/edu/brown/cs/systems/pivottracing/agent/advice/baggage/BagTuples.java:53-59 | the merged tuples followed by the new tuples of the right length, as text |
| BagTuples.CollectSized | pivottracing/agent/src/main/java/edu/brown/cs/systems/pivottracing/agent/advice/baggage/BagTuples.java:89-103 | the tuples of the right length from every bag, bag after bag |
| BagTuples.AppendSized | pivottracing/agent/src/main/java/edu/brown/cs/systems/pivottracing/agent/advice/baggage/BagTuples.java:95-99 | one bag's tuples of the right length appended in order |
| BagTuples.BagTuples.constructor | pivottracing/agent/src/main/java/edu/brown/cs/systems/pivottracing/agent/advice/baggage/BagTuples.java:27-33 | the bag id, the tuple size and the two namespaces are kept |
| BagTuples.BagTuples.Pack | pivottracing/agent/src/main/java/edu/brown/cs/systems/pivottracing/agent/advice/baggage/BagTuples.java:35-72 | the active namespace becomes the packed one: the id holds the old and new tuples, with the old version id or a fresh one, or is removed when there are none |
| BagTuples.BagTuples.Unpack | pivottracing/agent/src/main/java/edu/brown/cs/systems/pivottracing/agent/advice/baggage/BagTuples.java:74-105 | returns the active then archived tuples of the right length; several active bags are first merged into one, otherwise the active namespace is unchanged |
| BagFiltered.MostRecentUnpacked | pivottracing/agent/src/test/java/edu/brown/cs/systems/pivottracing/agent/advice/baggage/TestBagFilter.java:47-83 | after a MOSTRECENT pack, UNPACK returns exactly the tuples just packed, as text, whatever was stored before |
| BagFiltered.FirstUnpacked | pivottracing/agent/src/main/java/edu/brown/cs/systems/pivottracing/agent/advice/baggage/BagFiltered.java:37-65 | a FIRST pack when nothing is stored under the id makes UNPACK return exactly the packed tuples |
| BagFiltered.FirstSticks | pivottracing/agent/src/main/java/edu/brown/cs/systems/pivottracing/agent/advice/baggage/BagFiltered.java:38-41 | under FIRST, once a pack has stored tuples a later pack changes neither namespace, and UNPACK keeps returning the first tuples |
| BagFiltered.MostRecentOverrides | pivottracing/agent/src/main/java/edu/brown/cs/systems/pivottracing/agent/advice/baggage/BagFiltered.java:43-47 | under MOSTRECENT a second pack gives the same namespaces as if only the second had been made |
| BagFiltered.RenderAll | pivottracing/agent/src/main/java/edu/brown/cs/systems/pivottracing/agent/advice/baggage/BagFiltered.java:52-57 | every tuple, of any length, becomes the texts of its fields, in order |
| BagFiltered.CollectFiltered | pivottracing/agent/src/main/java/edu/brown/cs/systems/pivottracing/agent/advice/baggage/BagFiltered.java:71-81 | the filtered tuples of every bag, bag after bag |
| BagFiltered.BagFiltered.constructor | pivottracing/agent/src/main/java/edu/brown/cs/systems/pivottracing/agent/advice/baggage/BagFiltered.java:27-34 | the bag id, the filter, the tuple size and the two namespaces are kept |
| BagFiltered.BagFiltered.Pack | pivottracing/agent/src/main/java/edu/brown/cs/systems/pivottracing/agent/advice/baggage/BagFiltered.java:37-65 | FIRST with something already stored changes nothing; MOSTRECENT clears both namespaces under the id; then a fresh bag of all the tuples replaces the active one, or it is removed when there are none |
| BagFiltered.BagFiltered.Unpack | pivottracing/agent/src/main/java/edu/brown/cs/systems/pivottracing/agent/advice/baggage/BagFiltered.java:68-83 | the filtered tuples stored under the id, active bags before archived ones |
| Grouping.TryParseLong | pivottracing/agent/src/main/java/edu/brown/cs/systems/pivottracing/agent/advice/baggage/BagGrouped.java:54-55 | a parse succeeds only on text starting with '-' or a digit, and yields a value in the long range |
| Grouping.ParseRendered | pivottracing/agent/src/main/java/edu/brown/cs/systems/pivottracing/agent/advice/baggage/BagGrouped.java:54-55 | every long, printed in decimal, parses back to itself |
| Grouping.TruncateToLong | pivottracing/agent/src/main/java/edu/brown/cs/systems/pivottracing/agent/advice/baggage/BagGrouped.java:52-53 | the long value of a double: in the long range, rounded toward zero when the double is in range |
| Grouping.InterpretLong | pivottracing/agent/src/main/java/edu/brown/cs/systems/pivottracing/agent/advice/baggage/BagGrouped.java:49-59 | null and non-number non-string objects give nothing; every number gives a long; a result is always in the long range |
| Grouping.InterpretLongRoundTrip | pivottracing/agent/src/main/java/edu/brown/cs/systems/pivottracing/agent/advice/baggage/BagGrouped.java:49-59 | a boxed long, or its decimal text, is read as itself |
| Grouping.KeysOf | pivottracing/agent/src/main/java/edu/brown/cs/systems/pivottracing/agent/advice/baggage/BagGrouped.java:82-85 | one key per key field, the String.valueOf text of that field |
| Grouping.ValuesOf | pivottracing/agent/src/main/java/edu/brown/cs/systems/pivottracing/agent/advice/baggage/BagGrouped.java:88-99 | the values exist exactly when every non-COUNT field reads as a long; then COUNT fields give 1 and the others their long |
| Grouping.AddGroup | pivottracing/agent/src/main/java/edu/brown/cs/systems/pivottracing/agent/advice/baggage/BagGrouped.java:115-137 | adding a group keeps every group's key and value counts right and its values in the long range |
| Grouping.AddTuple | pivottracing/agent/src/main/java/edu/brown/cs/systems/pivottracing/agent/advice/baggage/BagGrouped.java:75-103 | adding a tuple keeps the groups well formed |
| Grouping.AddTuples | pivottracing/agent/src/main/java/edu/brown/cs/systems/pivottracing/agent/advice/baggage/BagGrouped.java:69-73 | adding tuples in order keeps the groups well formed |
| Grouping.GroupsAreAggregates | pivottracing/agent/src/main/java/edu/brown/cs/systems/pivottracing/agent/advice/output/EmitGrouped.java:60-107 | grouping from scratch has a group for a key exactly when some kept tuple has that key, and each column is that aggregation over those tuples: a wrapped sum, the maximum or the minimum |
| Grouping.CountCounts | pivottracing/agent/src/main/java/edu/brown/cs/systems/pivottracing/agent/advice/baggage/BagGrouped.java:90-91 | a COUNT column holds the number of the group's tuples, wrapped to a long |
| Grouping.ExtractTuple | pivottracing/agent/src/main/java/edu/brown/cs/systems/pivottracing/agent/advice/baggage/BagGrouped.java:76-99 | the key and value loops give the tuple's keys and values, or nothing for a tuple of the wrong length or with an unreadable value |
| Grouping.MergeValues | pivottracing/agent/src/main/java/edu/brown/cs/systems/pivottracing/agent/advice/baggage/BagGrouped.java:124-131 | each column of the existing group combined with the new value: long sum for COUNT and SUM, max for MAX, min for MIN |
| Grouping.AddGroupTo | pivottracing/agent/src/main/java/edu/brown/cs/systems/pivottracing/agent/advice/baggage/BagGrouped.java:115-137 | a group of the wrong size is ignored; one with a known key is merged, a new key is added |
| BagGrouped.AddGroups | pivottracing/agent/src/main/java/edu/brown/cs/systems/pivottracing/agent/advice/baggage/BagGrouped.java:105-109 | adding groups in order keeps the groups well formed |
| BagGrouped.GroupKeys | pivottracing/agent/src/main/java/edu/brown/cs/systems/pivottracing/agent/advice/baggage/BagGrouped.java:153-155 | every listed group's key is among the keys |
| BagGrouped.ListedGroupsReadBack | pivottracing/agent/src/main/java/edu/brown/cs/systems/pivottracing/agent/advice/baggage/BagGrouped.java:151-157 | adding back the groups listed from a map of groups gives that map: a group bag reads back as what was packed |
| BagGrouped.Row | pivottracing/agent/src/main/java/edu/brown/cs/systems/pivottracing/agent/advice/baggage/BagGrouped.java:139-148 | an output tuple has one field per key and one per aggregation |
| BagGrouped.RowReadBack | pivottracing/agent/src/main/java/edu/brown/cs/systems/pivottracing/agent/advice/baggage/BagGrouped.java:143-145 | an output tuple reads back as the group it came from: its keys, then its aggregates |
| BagGrouped.RowsOf | pivottracing/agent/src/main/java/edu/brown/cs/systems/pivottracing/agent/advice/baggage/BagGrouped.java:139-148 | one output tuple per group, in order |
| BagGrouped.ListGroups | pivottracing/agent/src/main/java/edu/brown/cs/systems/pivottracing/agent/advice/baggage/BagGrouped.java:142 | lists every group of the map exactly once, with its values |
| BagGrouped.Rows | pivottracing/agent/src/main/java/edu/brown/cs/systems/pivottracing/agent/advice/baggage/BagGrouped.java:140-148 | the output tuple of each listed group, in order |
| BagGrouped.PackedReadBack | pivottracing/agent/src/main/java/edu/brown/cs/systems/pivottracing/agent/advice/baggage/BagGrouped.java:180-201 | after PACK, the groups stored under the id read back as exactly the groups packed |
| BagGrouped.AddTuplesAppend | pivottracing/agent/src/main/java/edu/brown/cs/systems/pivottracing/agent/advice/baggage/BagGrouped.java:69-73 | adding two lists of tuples one after the other equals adding their concatenation |
| BagGrouped.PackTwice | pivottracing/agent/src/main/java/edu/brown/cs/systems/pivottracing/agent/advice/baggage/BagGrouped.java:180-201 | packing one list and then another stores the groups of packing both at once |
| BagGrouped.GroupedTuples.constructor | pivottracing/agent/src/main/java/edu/brown/cs/systems/pivottracing/agent/advice/baggage/BagGrouped.java:62-63 | no groups, and the given fresh version id |
| BagGrouped.GroupedTuples.AddTuple | pivottracing/agent/src/main/java/edu/brown/cs/systems/pivottracing/agent/advice/baggage/BagGrouped.java:75-103 | the groups become those with the tuple added; a wrong-length tuple or one with an unreadable value changes nothing |
| BagGrouped.GroupedTuples.AddAllTuples | pivottracing/agent/src/main/java/edu/brown/cs/systems/pivottracing/agent/advice/baggage/BagGrouped.java:69-73 | the tuples are added in order |
| BagGrouped.GroupedTuples.AddGroupMessage | pivottracing/agent/src/main/java/edu/brown/cs/systems/pivottracing/agent/advice/baggage/BagGrouped.java:111-113 | the group's keys and aggregates are added or merged |
| BagGrouped.GroupedTuples.AddAllGroups | pivottracing/agent/src/main/java/edu/brown/cs/systems/pivottracing/agent/advice/baggage/BagGrouped.java:105-109 | the groups are added in order |
| BagGrouped.GroupedTuples.AddBags | pivottracing/agent/src/main/java/edu/brown/cs/systems/pivottracing/agent/advice/baggage/BagGrouped.java:165-177 | the groups of every group bag are added, and the version id becomes that of the last group bag |
| BagGrouped.GroupedTuples.GetTuples | pivottracing/agent/src/main/java/edu/brown/cs/systems/pivottracing/agent/advice/baggage/BagGrouped.java:139-149 | one output tuple per group, each group listed once |
| BagGrouped.GroupedTuples.GetBag | pivottracing/agent/src/main/java/edu/brown/cs/systems/pivottracing/agent/advice/baggage/BagGrouped.java:151-161 | a group bag with this version id listing every group once |
| BagGrouped.BagGrouped.constructor | pivottracing/agent/src/main/java/edu/brown/cs/systems/pivottracing/agent/advice/baggage/BagGrouped.java:33-46 | the bag id, the spec and the two namespaces are kept |
| BagGrouped.BagGrouped.Pack | pivottracing/agent/src/main/java/edu/brown/cs/systems/pivottracing/agent/advice/baggage/BagGrouped.java:179-201 | the active bags' groups with the new tuples added replace the bag under the id, keeping the last version id or a fresh one; the id is removed when no group remains |
| BagGrouped.BagGrouped.Unpack | pivottracing/agent/src/main/java/edu/brown/cs/systems/pivottracing/agent/advice/baggage/BagGrouped.java:203-229 | one output tuple per group of the active and archived bags merged; several active bags are first merged into one, otherwise the active namespace is unchanged |
| BagGrouped.Ungroup | pivottracing/agent/src/main/java/edu/brown/cs/systems/pivottracing/agent/advice/baggage/BagGrouped.java:218-228 | the merged groups of all the bags, one output tuple each |
| BagGrouped.MergedWithArchive | pivottracing/agent/src/main/java/edu/brown/cs/systems/pivottracing/agent/advice/baggage/BagGrouped.java:205-216 | merging several active bags first changes none of the groups returned, and nothing stored gives no groups |
| EmitGrouped.EmitGrouped.constructor | pivottracing/agent/src/main/java/edu/brown/cs/systems/pivottracing/agent/advice/output/EmitGrouped.java:29-41 | the GROUP BY spec is kept and the queue is empty |
| EmitGrouped.EmitGrouped.Emit | pivottracing/agent/src/main/java/edu/brown/cs/systems/pivottracing/agent/advice/output/EmitGrouped.java:43-45 | the tuple list joins the end of the queue |
| EmitGrouped.EmitGrouped.Process | pivottracing/agent/src/main/java/edu/brown/cs/systems/pivottracing/agent/advice/output/EmitGrouped.java:60-107 | the groups of the tuples, added in order, as the grouping of a grouped bag |
| EmitGrouped.EmitGrouped.GetResults | pivottracing/agent/src/main/java/edu/brown/cs/systems/pivottracing/agent/advice/output/EmitGrouped.java:109-128 | the queue is emptied and the report, under the given header, lists each group of all the drained tuples once |
| EmitGrouped.ReportedAggregates | pivottracing/agent/src/main/java/edu/brown/cs/systems/pivottracing/agent/advice/output/EmitGrouped.java:109-128 | each reported group has drained tuples with its key, and each of its columns aggregates them |
| EmitGrouped.EmitBatches | pivottracing/agent/src/main/java/edu/brown/cs/systems/pivottracing/agent/advice/output/EmitGrouped.java:43-45 | reporting after one more emit gives the groups so far with the new batch folded in |
| QueryParser.TrimStart | pivottracing/client/src/main/java/edu/brown/cs/systems/pivottracing/query/Parser.java:215-217 | the leading characters up to U+0020 are removed and nothing else; the rest starts above U+0020 |
| QueryParser.TrimEnd | pivottracing/client/src/main/java/edu/brown/cs/systems/pivottracing/query/Parser.java:215-217 | the trailing characters up to U+0020 are removed and nothing else; the rest ends above U+0020 |
| QueryParser.Trim | pivottracing/client/src/main/java/edu/brown/cs/systems/pivottracing/query/Parser.java:215-217 | a trimmed line that is not empty starts and ends above U+0020 |
| QueryParser.Word | pivottracing/client/src/main/java/edu/brown/cs/systems/pivottracing/query/Parser.java:215-217 | the longest prefix without whitespace, followed by whitespace when it is not the whole text |
| QueryParser.Words | pivottracing/client/src/main/java/edu/brown/cs/systems/pivottracing/query/Parser.java:215-217 | each word is non-empty and has no whitespace |
| QueryParser.NonSpace | pivottracing/client/src/main/java/edu/brown/cs/systems/pivottracing/query/Parser.java:215-217 | the text without whitespace has none |
| QueryParser.WordsText | pivottracing/client/src/main/java/edu/brown/cs/systems/pivottracing/query/Parser.java:215-217 | the words, joined, are exactly the text's non-whitespace characters in order: splitting loses only whitespace |
| QueryParser.SplitSpacesWords | pivottracing/client/src/main/java/edu/brown/cs/systems/pivottracing/query/Parser.java:146 | text that starts with a non-whitespace character splits at whitespace into its words |
| QueryParser.Tokens | pivottracing/client/src/main/java/edu/brown/cs/systems/pivottracing/query/Parser.java:215-217 | a line always gives at least one token |
| QueryParser.TokensShape | pivottracing/client/src/main/java/edu/brown/cs/systems/pivottracing/query/Parser.java:215-217 | a blank line gives the one empty token, any other line its words |
| QueryParser.Uncomma | pivottracing/client/src/main/java/edu/brown/cs/systems/pivottracing/query/Parser.java:210 | the result has no comma and is no longer than the input |
| QueryParser.UncommaKeeps | pivottracing/client/src/main/java/edu/brown/cs/systems/pivottracing/query/Parser.java:210 | removing commas leaves a text unchanged exactly when it has none |
| QueryParser.Subtokens | pivottracing/client/src/main/java/edu/brown/cs/systems/pivottracing/query/Parser.java:207-213 | one token per token from the start position on, none with a comma |
| QueryParser.KeywordAnyCase | pivottracing/client/src/main/java/edu/brown/cs/systems/pivottracing/query/Parser.java:219-223 | a token passes the check exactly when it lower-cases to the keyword, so the keyword is accepted in any case |
| QueryParser.FromLine | pivottracing/client/src/main/java/edu/brown/cs/systems/pivottracing/query/Parser.java:54-75 | a From line parses exactly when it starts with "from" and is either two tokens naming a known tracepoint or four tokens with "in" third, a known tracepoint fourth and a valid variable; any other token count fails; the query starts with no clause and open |
| QueryParser.LowerArrow | pivottracing/client/src/main/java/edu/brown/cs/systems/pivottracing/query/Parser.java:83 | only "->" itself passes the check for "->" |
| QueryParser.JoinKeywords | pivottracing/client/src/main/java/edu/brown/cs/systems/pivottracing/query/Parser.java:79-83 | the keywords pass exactly when the line has at least seven tokens with join, in, on and "->" at positions 0, 2, 4 and 6 |
| QueryParser.Reach | pivottracing/client/src/main/java/edu/brown/cs/systems/pivottracing/query/Parser.java:96-102 | a target is found exactly when the name is a known tracepoint or query, a tracepoint first; a filter on a finished query cannot be applied |
| QueryParser.JoinLine | pivottracing/client/src/main/java/edu/brown/cs/systems/pivottracing/query/Parser.java:78-143 | a join that parses has its keywords in place, joins onto a named query, starts from its own variable, and joins onto the query's name or an earlier joined variable |
| QueryParser.JoinBuilt | pivottracing/client/src/main/java/edu/brown/cs/systems/pivottracing/query/Parser.java:104-139 | the join built has the line's variable, the filter and target of the joined name, and onto what it joins; a join onto the query itself has a target, and a join onto an earlier joined variable from a registered query is built only when that query is still open |
| QueryParser.JoinOntoEndedQuery | pivottracing/client/src/main/java/edu/brown/cs/systems/pivottracing/query/Parser.java:120-134 | a join onto an earlier joined variable from a registered query that Select or GroupBy ended, without a filter, fails because the query is no partial query (the cast at line 134) |
| QueryParser.JoinWrongSide | pivottracing/client/src/main/java/edu/brown/cs/systems/pivottracing/query/Parser.java:89-93 | a join whose "->" variable differs from the joined variable fails with exactly that error |
| QueryParser.Keyed | pivottracing/client/src/main/java/edu/brown/cs/systems/pivottracing/query/Parser.java:162-172 | a keyword line parses exactly when its first token is the keyword in any case, giving the remaining tokens without commas |
| QueryParser.ParseSelect | pivottracing/client/src/main/java/edu/brown/cs/systems/pivottracing/query/Parser.java:162-167 | a Select line parses exactly when its first word is SELECT in any case; the query is then ended with the remaining words, commas stripped, as its keys, and nothing else changes |
| QueryParser.MatchKeysOk | pivottracing/client/src/main/java/edu/brown/cs/systems/pivottracing/query/Parser.java:181-185 | the key check passes exactly when every remaining GroupBy key is repeated by the Select key at its position |
| QueryParser.KeysLead | pivottracing/client/src/main/java/edu/brown/cs/systems/pivottracing/query/Parser.java:180-185 | the keys match exactly when the Select keys start with the GroupBy keys |
| QueryParser.AggregationsOk | pivottracing/client/src/main/java/edu/brown/cs/systems/pivottracing/query/Parser.java:193-203 | the aggregations parse exactly when each token does, one aggregation per token in order |
| QueryParser.GroupingOk | pivottracing/client/src/main/java/edu/brown/cs/systems/pivottracing/query/Parser.java:180-203 | a grouping parses exactly when the Select keys start with the GroupBy keys, at least one more follows, and each of those is an aggregation |
| QueryParser.ParseGroupBy | pivottracing/client/src/main/java/edu/brown/cs/systems/pivottracing/query/Parser.java:169-205 | GroupBy ends the query grouped and changes nothing else |
| QueryParser.GroupByLines | pivottracing/client/src/main/java/edu/brown/cs/systems/pivottracing/query/Parser.java:169-205 | a GroupBy parses exactly when both keywords are in place and the grouping parses; the keys are the GroupBy line's, with at least one aggregation |
| QueryParser.Lines | pivottracing/client/src/main/java/edu/brown/cs/systems/pivottracing/query/Parser.java:38 | a text without a newline is one line |
| QueryParser.ExtendKeepsOpen | pivottracing/client/src/main/java/edu/brown/cs/systems/pivottracing/query/Parser.java:44-46 | a join, where or let line adds at most one clause and does not end the query |
| QueryParser.ParseLinesStep | pivottracing/client/src/main/java/edu/brown/cs/systems/pivottracing/query/Parser.java:40-50 | in a parse that succeeds, no line is a From line; a Select or GroupBy line ends the query that way; any other line extends it and the parse goes on from the next line |
| QueryParser.NoSecondFrom | pivottracing/client/src/main/java/edu/brown/cs/systems/pivottracing/query/Parser.java:43 | a query that parses has no second From line before its ending |
| QueryParser.StaysOpen | pivottracing/client/src/main/java/edu/brown/cs/systems/pivottracing/query/Parser.java:40-51 | without a Select or GroupBy line the parsed query stays open |
| QueryParser.EndsAt | pivottracing/client/src/main/java/edu/brown/cs/systems/pivottracing/query/Parser.java:47-48 | the first Select or GroupBy line ends the query the way it says |
| QueryParser.Parser.constructor | pivottracing/client/src/main/java/edu/brown/cs/systems/pivottracing/query/Parser.java:27-29 | the known tracepoints are kept and no query is registered yet |
| QueryParser.Parser.ParseText | pivottracing/client/src/main/java/edu/brown/cs/systems/pivottracing/query/Parser.java:37-52 | the line loop gives the parse of the whole text |
| QueryParser.Parser.Parse | pivottracing/client/src/main/java/edu/brown/cs/systems/pivottracing/query/Parser.java:31-35 | a query that parses is registered under its name; a failure leaves the registered queries unchanged |
| AdviceImpl.LetNames | pivottracing/agent/src/main/java/edu/brown/cs/systems/pivottracing/agent/advice/AdviceImpl.java:185-188 | the LET variables, in order |
| AdviceImpl.IndicesOk | pivottracing/agent/src/main/java/edu/brown/cs/systems/pivottracing/agent/advice/AdviceImpl.java:149-155 | resolving names succeeds exactly when every name is a known variable, and then each position holds that name |
| AdviceImpl.LetsOfOk | pivottracing/agent/src/main/java/edu/brown/cs/systems/pivottracing/agent/advice/AdviceImpl.java:185-193 | the LETs resolve exactly when each refers only to names laid out up to and including its own variable |
| AdviceImpl.LetsOfAt | pivottracing/agent/src/main/java/edu/brown/cs/systems/pivottracing/agent/advice/AdviceImpl.java:185-193 | the k-th LET writes the slot after the base names and the earlier LETs, and each replacement slot holds the named variable, at or before its own slot |
| AdviceImpl.WheresOfOk | pivottracing/agent/src/main/java/edu/brown/cs/systems/pivottracing/agent/advice/AdviceImpl.java:212-219 | the WHEREs resolve exactly when every name they use is known |
| AdviceImpl.WheresOfAt | pivottracing/agent/src/main/java/edu/brown/cs/systems/pivottracing/agent/advice/AdviceImpl.java:212-219 | each WHERE keeps its expression, and each replacement slot holds the named variable |
| AdviceImpl.AggIndicesOk | pivottracing/agent/src/main/java/edu/brown/cs/systems/pivottracing/agent/advice/AdviceImpl.java:253-259 | COUNT aggregates read slot -1, every other aggregate the slot of its variable; resolving fails exactly when such a variable is unknown |
| AdviceImpl.ConfigureOk | pivottracing/agent/src/main/java/edu/brown/cs/systems/pivottracing/agent/advice/AdviceImpl.java:51-93 | the advice is configured exactly when every LET, WHERE and output name is known where it is used and there is a PACK or EMIT with a specification |
| AdviceImpl.OutputOfOk | pivottracing/agent/src/main/java/edu/brown/cs/systems/pivottracing/agent/advice/AdviceImpl.java:70-92 | the output resolves exactly when it is specified and its names known; PACK is chosen whenever present, else EMIT; every output slot is -1 or a slot of the tuple |
| AdviceImpl.GroupIndicesOk | pivottracing/agent/src/main/java/edu/brown/cs/systems/pivottracing/agent/advice/AdviceImpl.java:247-260 | a group-by output is the keys' slots and then, per aggregate, -1 for COUNT or the slot of its variable |
| AdviceImpl.UnpackLayout | pivottracing/agent/src/main/java/edu/brown/cs/systems/pivottracing/agent/advice/AdviceImpl.java:163-167 | each unpacked bag's variables sit at its offset, inside the unpacked slots |
| AdviceImpl.OffsetsSeparated | pivottracing/agent/src/main/java/edu/brown/cs/systems/pivottracing/agent/advice/AdviceImpl.java:163-167 | each unpacked bag's slots end before the next bag's begin |
| AdviceImpl.ConfigureParts | pivottracing/agent/src/main/java/edu/brown/cs/systems/pivottracing/agent/advice/AdviceImpl.java:51-93 | a configured advice is made of the layout, the offsets and widths, and the resolved LETs, WHEREs and output |
| AdviceImpl.LayoutAt | pivottracing/agent/src/main/java/edu/brown/cs/systems/pivottracing/agent/advice/AdviceImpl.java:56-64 | the slots of each unpacked bag hold its variables, before the LET variables |
| AdviceImpl.ConfigureLayout | pivottracing/agent/src/main/java/edu/brown/cs/systems/pivottracing/agent/advice/AdviceImpl.java:56-64 | the tuple is the observed names, then each unpacked bag's variables at its offset, then the LET variables |
| AdviceImpl.ConfigureWellFormed | pivottracing/agent/src/main/java/edu/brown/cs/systems/pivottracing/agent/advice/AdviceImpl.java:51-93 | every slot a configured advice refers to exists |
| AdviceImpl.LetsPrefixFails | pivottracing/agent/src/main/java/edu/brown/cs/systems/pivottracing/agent/advice/AdviceImpl.java:189-192 | the first LET that fails to resolve decides the error |
| AdviceImpl.WheresPrefixFails | pivottracing/agent/src/main/java/edu/brown/cs/systems/pivottracing/agent/advice/AdviceImpl.java:216-218 | the first WHERE that fails to resolve decides the error |
| AdviceImpl.AggsPrefixFails | pivottracing/agent/src/main/java/edu/brown/cs/systems/pivottracing/agent/advice/AdviceImpl.java:253-259 | the first aggregate that fails to resolve decides the error |
| AdviceImpl.IndicesOf | pivottracing/agent/src/main/java/edu/brown/cs/systems/pivottracing/agent/advice/AdviceImpl.java:149-155 | the loop of indexOf calls gives the resolved positions, or the error for the first unknown name |
| AdviceImpl.TupleIndicesOf | pivottracing/agent/src/main/java/edu/brown/cs/systems/pivottracing/agent/advice/AdviceImpl.java:235-246 | the slots of a tuple or filter specification's variables |
| AdviceImpl.GroupIndicesOf | pivottracing/agent/src/main/java/edu/brown/cs/systems/pivottracing/agent/advice/AdviceImpl.java:247-260 | the slots of a group-by specification |
| AdviceImpl.OutputOfSpec | pivottracing/agent/src/main/java/edu/brown/cs/systems/pivottracing/agent/advice/AdviceImpl.java:70-92 | the outputter chosen and resolved as the specification says, or the error |
| AdviceImpl.LayOutUnpacks | pivottracing/agent/src/main/java/edu/brown/cs/systems/pivottracing/agent/advice/AdviceImpl.java:58-60 | the unpacked bags' variables follow the observed names, each bag at its offset |
| AdviceImpl.LayOutLet | pivottracing/agent/src/main/java/edu/brown/cs/systems/pivottracing/agent/advice/AdviceImpl.java:185-193 | one LET adds its variable, then resolves its replacements |
| AdviceImpl.LayOutLets | pivottracing/agent/src/main/java/edu/brown/cs/systems/pivottracing/agent/advice/AdviceImpl.java:62-64 | the LETs in order give the configured LETs or the first error |
| AdviceImpl.ResolveWheres | pivottracing/agent/src/main/java/edu/brown/cs/systems/pivottracing/agent/advice/AdviceImpl.java:66-68 | the WHEREs in order give the configured WHEREs or the first error |
| AdviceImpl.Build | pivottracing/agent/src/main/java/edu/brown/cs/systems/pivottracing/agent/advice/AdviceImpl.java:51-93 | the constructor gives exactly the configured advice, or the first reason the specification is invalid |
| AdviceImpl.Prod | pivottracing/agent/src/main/java/edu/brown/cs/systems/pivottracing/agent/advice/AdviceImpl.java:107-112 | the combination count is positive exactly when every bag is non-empty |
| AdviceImpl.Digits | pivottracing/agent/src/main/java/edu/brown/cs/systems/pivottracing/agent/advice/AdviceImpl.java:120-124 | combination i picks from each bag an index below that bag's size |
| AdviceImpl.DigitsRoundTrip | pivottracing/agent/src/main/java/edu/brown/cs/systems/pivottracing/agent/advice/AdviceImpl.java:118-124 | every combination below the count is recovered from the tuple indices it picks |
| AdviceImpl.FromDigitsRoundTrip | pivottracing/agent/src/main/java/edu/brown/cs/systems/pivottracing/agent/advice/AdviceImpl.java:118-124 | every choice of one tuple per bag is exactly one combination below the count: each combination is visited once |
| AdviceImpl.Project | pivottracing/agent/src/main/java/edu/brown/cs/systems/pivottracing/agent/advice/AdviceImpl.java:221-225 | the values at the given slots, in order |
| AdviceImpl.Run | pivottracing/agent/src/main/java/edu/brown/cs/systems/pivottracing/agent/advice/AdviceImpl.java:114-140 | there are no more outputs than combinations, exactly as many when there is no WHERE, and every output has one field per output slot |
| AdviceImpl.JoinedOutside | pivottracing/agent/src/main/java/edu/brown/cs/systems/pivottracing/agent/advice/AdviceImpl.java:120-124 | a slot no chosen tuple covers keeps its value through the join |
| AdviceImpl.JoinedAt | pivottracing/agent/src/main/java/edu/brown/cs/systems/pivottracing/agent/advice/AdviceImpl.java:120-124 | with the bags' slots apart, each slot of a bag's range holds the matching field of the tuple chosen from that bag |
| AdviceImpl.ApplyLetsOutside | pivottracing/agent/src/main/java/edu/brown/cs/systems/pivottracing/agent/advice/AdviceImpl.java:127-129 | a slot no LET writes keeps its value through the LETs |
| AdviceImpl.StepOutput | pivottracing/agent/src/main/java/edu/brown/cs/systems/pivottracing/agent/advice/AdviceImpl.java:131-139 | without a WHERE every combination outputs, and every output has one field per output slot |
| AdviceImpl.NoCombinations | pivottracing/agent/src/main/java/edu/brown/cs/systems/pivottracing/agent/advice/AdviceImpl.java:107-118 | there are no combinations exactly when some bag is empty, and then nothing is output; with no bag there is exactly one |
| AdviceImpl.CopyInto | pivottracing/agent/src/main/java/edu/brown/cs/systems/pivottracing/agent/advice/AdviceImpl.java:122 | the array becomes the tuple with the chosen tuple written over it from the offset |
| AdviceImpl.JoinInto | pivottracing/agent/src/main/java/edu/brown/cs/systems/pivottracing/agent/advice/AdviceImpl.java:120-124 | the array becomes the join of combination i: each bag's tuple at its digit, in bag order |
| AdviceImpl.ApplyLetsTo | pivottracing/agent/src/main/java/edu/brown/cs/systems/pivottracing/agent/advice/AdviceImpl.java:127-129 | the array becomes the tuple with each LET evaluated into its slot, in order |
| AdviceImpl.Satisfies | pivottracing/agent/src/main/java/edu/brown/cs/systems/pivottracing/agent/advice/AdviceImpl.java:132-136 | true exactly when every WHERE holds, checked in order |
| AdviceImpl.MakeOutputTuple | pivottracing/agent/src/main/java/edu/brown/cs/systems/pivottracing/agent/advice/AdviceImpl.java:261-272 | the long 1 for a COUNT field, else the value of the field's slot |
| AdviceImpl.Combine | pivottracing/agent/src/main/java/edu/brown/cs/systems/pivottracing/agent/advice/AdviceImpl.java:118-140 | one pass of the tuple loop: the tuple after the join and the LETs, and the output when every WHERE holds |
| AdviceImpl.CombinationCount | pivottracing/agent/src/main/java/edu/brown/cs/systems/pivottracing/agent/advice/AdviceImpl.java:107-112 | the product of the bag sizes |
| AdviceImpl.Advise | pivottracing/agent/src/main/java/edu/brown/cs/systems/pivottracing/agent/advice/AdviceImpl.java:100-147 | the outputs of every combination in order, or none when more values are passed than the tuple holds |
| AdviceImpl.StartTuple | pivottracing/agent/src/main/java/edu/brown/cs/systems/pivottracing/agent/advice/AdviceImpl.java:103-104 | a fresh array of the passed values followed by nulls |
| AdviceImpl.RunSnoc | pivottracing/agent/src/main/java/edu/brown/cs/systems/pivottracing/agent/advice/AdviceImpl.java:118-140 | each combination extends the run by its step, and the reused tuple still fits the advice |

## Left out

- Network transport, file and socket I/O, logging, and the protobuf encoding of bags and baggage are not modelled: bags are datatypes and namespaces are maps.
- Concurrency is not modelled. The compare-and-set retry loops of SlotManager, AdviceInstanceManager and HardcodedTracepoint are single sequential updates, and the blocking queue of EmitGrouped is a sequence.
- AdviceManager: the advice id seed is a field of each manager here; in Java it is static.
- Tracepoint.HardcodedTracepoint.Advise: returns the advice calls it would make, in order. Exceptions the advice swallows are not modelled.
- PivotTracingUtils.Replace: the replacement text is taken literally. Java's `replaceFirst` would give `$` and `\` in it special meaning.
- AdviceImpl: the JavaScript evaluation of LET and WHERE expressions is passed in as the functions `eval` and `test`. They receive the expression and the values of its replacement slots, so the `{}` substitution and quote escaping happen inside them.
- AdviceImpl: the Unpacker, Packer and Emitter objects are not modelled. The unpacked bags are an input of Advise, and the outputs are returned rather than sent.
- StringSort: JavaScript's string sort compares UTF-16 code units; the model compares Unicode scalar values.
- Series: the `prev`/`next` links and `elementsmap` are derived from the ordered list and are not stored. The chart fields and `data()` interpolation (floating point) are not modelled.
- Series.Series.AddData: usage and the consumption added are exact reals, so fractional amounts such as the megabyte values of Data.js:158 are covered, but the floating-point rounding of `elem.usage += consumption` (Data.js:50) is not modelled. Times stay integers, while JavaScript times are doubles.
- Baggage.BaggageImpl.Merge and Baggage.BaggageImpl.Split: the registered BaggageHandler callbacks (`Handlers.preMerge`, `postMerge`, `preSplit` and `postSplit`, BaggageImpl.java:273, 282, 295 and 301) are not modelled, so these contracts describe a baggage with no handler registered.
- WLKernel: NodeCountKernel is not part of this model; the base kernel is a parameter returning a real score.
- WLKernel: a node whose neighbour list is missing is treated as having no neighbours.
- WLKernel: JavaScript numbers are not modelled exactly. Scores are reals and labels are decimal text.
- Iteration order over JavaScript objects, Ruby hashes and Java hash maps is not modelled. Where the source's result depends on it, the contracts state what holds for every order.
- WLKernel.WeisfeilerLehmanKernel.NodeStability: states only that each node's score lies between 0 and its number of labels. It does not state the exact sum of the per-round contributions.
- QueryUtils.SplitAgg, QueryUtils.SplitFilter, the QueryParser keyword checks and XTraceReports.AbsorbFields: case conversion is ASCII only. Java's `toUpperCase`/`toLowerCase` and Ruby's `downcase` also convert non-ASCII letters, so the source accepts "ſum(x)" as SUM and files the key "Über" as "über"; the model rejects the first and keeps "Über".
- Tracepoint.HardcodedTracepoint.Weave and AdviceManager.Manager.Register: the id seeds are 32-bit AtomicIntegers in Java (HardcodedTracepoint.java:18 and 137, AdviceInstanceManager.java:9 and 14) and wrap around after 2^32 ids. The model's seeds are unbounded integers, so its claims that a new id is fresh and sorts last hold only before the wrap.
- AdviceImpl.Advise: Java catches every Throwable in `advise` and then emits nothing (AdviceImpl.java:144-146). The model covers only the case of too many passed values. A LET or WHERE expression that throws in the JavaScript engine, or a null replacement slot whose `toString()` throws (AdviceImpl.java:198, 224), is not modelled: `eval` and `test` are total, so the model still emits.
- QueryParser.Parser.Parse: the query builder's checks are not modelled. These are `checkVarName` (PTQuery.java:77, 86, 229-233; PTQuery_Partial.java:47), `requireInputs` (PTQuery_Partial.java:39, 48) and `upstream.checkVarName(jointo)` (Parser.java:124). So the model accepts a query with a duplicate or unavailable variable name, or an unknown input, which Java rejects with a PTQueryException.
- KernelGraphs.KernelGraph.Remove: for an id that is not a node the model changes nothing. The JavaScript (KernelGraph.js:66-69) reads `node.id` of undefined and throws a TypeError; the no-op is only what its comment at line 68 intends.
- WLKernel.SameNewLabel: equal new labels mean equal canonical label texts. The text joins the sorted neighbour labels with ',' after ':', so different neighbourhoods can share it when labels hold those characters (label "a" with neighbours ["b,c"] and with ["b", "c"]), in the source as in the model.
- DynamicManager: the instrumentation agent and the list of problems it reports are left to the caller; whether the agent's `install` throws (CannotCompileException or UnmodifiableClassException, Agent.java:76-82) is a parameter of `Install`.
- XTraceReport.Tokens: commons-lang splits the empty message into no tokens at all; the model gives one empty token. Both produce the same label and consume the same variables.
- KernelGraphs.FromJSON: requires distinct report ids. With duplicate ids the JavaScript leaves stale label entries.
- KernelGraphs.FromJSON: requires every report to carry an X-Trace field. The JavaScript would throw on a report without one.
- KernelGraphs.LinkEveryEdge: states that the graph stays well formed and keeps its nodes. It does not state which edges are added.
- XTraceReports.Trace.constructor: requires a text with at least one report. Ruby raises an error reading the task id of an empty trace.
- XTraceReports.Build: the sort of each report's parents and children by index (reports.rb:32-33) is not modelled; its contract gives children in report order and parents in edge order.
- XTraceReports.Trace.constructor: the sort of each report's parents and children by index (reports.rb:32-33) is not modelled; children are kept in report order. Ruby's `sort!` raises an ArgumentError (`Integer <=> nil`) when a list mixes numbered and unnumbered reports, for example when a cycle p<->q that no root reaches also has an edge to a reachable report. `Trace.new` then fails, while the model builds the trace.
- XTraceReports.Next: states that the result is some matching descendant, and the start itself when it matches. It does not state that it is the first in search order.
- XTraceReports: the float timestamp conversion, the function, event and fan-in contention tables, the text and report accessors, start and end times, `method_missing` and `has_field` are not modelled.
- Baggage.BaggageImpl.Merge: when the other baggage has a namespace this one lacks, Java shares that namespace by reference, so later changes alias. The model copies the values.
- Baggage: serialization to and from the wire message is not modelled.
- Bags.Namespace: the Tracing Plane's Namespace class (edu.brown.cs.systems.baggage.Namespace) is not part of this model. It stands here as a map from bag id to the list of bags stored under it.
- BagTuples, BagFiltered, BagGrouped: a stored bag that fails to parse is the `Malformed` bag and is skipped, as Java skips it. What makes the bytes unparsable is not modelled.

## Findings

| source | as written | input that shows it | evidently intended | confidence | as-written member | corrected member |
|---|---|---|---|---|---|---|
| xtrace/client/src/main/java/edu/brown/cs/systems/xtrace/reporting/XTraceReport.java:102-106 | with fewer variables than `{}` placeholders, the loop stops at the last filled placeholder and drops the text after it | message "x{}y" with no variables gives the label "x" | unfilled placeholders and the text after them are kept: "x{}y" | not executed | XTraceReport.LabelDropsTrailingText | XTraceReport.Substitute |
| retro/throttling/src/main/java/edu/brown/cs/systems/retro/throttling/mclock/SlotManager.java:91-98 | the retry loop's compare-and-set can never succeed once the subtraction underflows a long | queue counter Long.MIN_VALUE + 1, deficit 0, two slots added | the update completes, with the counters adjusted by the slots | not executed | SlotManager.UnderflowSpinsForever | SlotManager.AddSlots |
| tracingplane/client/src/main/java/edu/brown/cs/systems/baggage/BaggageImpl.java:257-266 | moving a namespace onto itself reads the target, removes the source, then puts the read values back into the removed map | moveEntries(x, x) on a baggage whose namespace x holds a value | moving onto itself leaves the baggage unchanged | not executed | Baggage.MoveOntoItselfLoses | Baggage.BaggageImpl.MoveEntries |
| xtrace/visualization/src/main/resources/webui/html/interactive/js/kernels/KernelGraph.js:76-94 | with a self-edge on the removed node, splicing its parents onto its children puts the node back as a parent | nodes n and c, edges n->n and n->c, remove(n): c still has parent n | the removed node appears in no adjacency set | not executed | KernelGraphs.RemoveAsWrittenDangles | KernelGraphs.RemovedBridges |
| xtrace/visualization/src/main/resources/webui/html/interactive/js/kernels/WeisfeilerLehmanKernel.js:21-27 | the directional prune passes a node object where a node id is expected, so no node has a parent or child | graph a->b relabelled looking up: b has a parent but is removed | a node stays when it has a parent (looking up) or a child (looking down) | not executed | WLKernel.ChainExampleDropped | WLKernel.Prune |

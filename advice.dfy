/** Woven advice: the configuration that lays out one tuple of named
    variables (observed values, then each unpacked bag's variables, then the
    LET variables) and resolves every name used by LET, WHERE and the output
    to a position in it; and the join that runs once per invocation over
    every combination of unpacked tuples. */
module AdviceImpl {
  import opened Common
  import opened AdviceProtos

  // ---------------------------------------------------------------------
  // The advice specification
  // ---------------------------------------------------------------------

  datatype AggVar = AggVar(how: Agg, name: string)

  datatype GroupBySpec = GroupBySpec(groupBy: seq<string>, aggregates: seq<AggVar>)

  /** PACK into baggage: plain tuples, filtered tuples, grouped tuples, or
      a PACK that names none of them. */
  datatype PackSpec =
    | PackTuples(vars: seq<string>)
    | PackFiltered(filter: Filter, vars: seq<string>)
    | PackGrouped(grouping: GroupBySpec)
    | PackUnspecified

  /** EMIT for global aggregation: plain or grouped tuples, or neither. */
  datatype EmitSpec =
    | EmitTuples(vars: seq<string>)
    | EmitGrouped(grouping: GroupBySpec)
    | EmitUnspecified

  /** LET `name` = `expression`, whose `{}` are filled with the named
      variables. */
  datatype LetSpec = LetSpec(name: string, expression: string, replacements: seq<string>)

  /** WHERE `expression`, whose `{}` are filled with the named variables. */
  datatype WhereSpec = WhereSpec(expression: string, replacements: seq<string>)

  datatype AdviceSpec = AdviceSpec(
    observe: seq<string>,
    unpacks: seq<seq<string>>,
    lets: seq<LetSpec>,
    wheres: seq<WhereSpec>,
    pack: Option<PackSpec>,
    emit: Option<EmitSpec>)

  // ---------------------------------------------------------------------
  // The configured advice
  // ---------------------------------------------------------------------

  datatype Destination = ToPack | ToEmit

  /** A LET: its expression, the tuple slot it writes, and the slots whose
      values fill its `{}`. */
  datatype Let = Let(expression: string, inputIndex: nat, replacements: seq<nat>)

  datatype Where = Where(expression: string, replacements: seq<nat>)

  /** The configured advice: the names of the tuple's slots, where each
      unpacked bag's variables start and how many there are, the LETs and
      WHEREs, and for each output field the slot it copies (-1: COUNT). */
  datatype Advice = Advice(
    tupleNames: seq<string>,
    offsets: seq<nat>,
    widths: seq<nat>,
    lets: seq<Let>,
    wheres: seq<Where>,
    destination: Destination,
    outputIndices: seq<int>)

  /** Every slot the advice refers to exists. */
  predicate WellFormed(a: Advice)
  {
    var n := |a.tupleNames|;
    && |a.offsets| == |a.widths|
    && (forall j :: 0 <= j < |a.offsets| ==> a.offsets[j] + a.widths[j] <= n)
    && (forall k :: 0 <= k < |a.lets| ==> a.lets[k].inputIndex < n && AllBelow(a.lets[k].replacements, n))
    && (forall k :: 0 <= k < |a.wheres| ==> AllBelow(a.wheres[k].replacements, n))
    && (forall i :: 0 <= i < |a.outputIndices| ==> -1 <= a.outputIndices[i] < n)
  }

  predicate AllBelow(ps: seq<nat>, n: nat)
  {
    forall i :: 0 <= i < |ps| ==> ps[i] < n
  }

  // ---------------------------------------------------------------------
  // Configuration: the tuple layout and name resolution
  // ---------------------------------------------------------------------

  function UnknownVar(name: string): string
  {
    "Unknown var " + name
  }

  /** `indexOf` for each name in turn: the positions, or the message for
      the first unknown name. */
  function Indices(names: seq<string>, vars: seq<string>): (r: Result<seq<nat>, string>)
  {
    match Resolve(names, vars)
    case Err(x) => Err(UnknownVar(x))
    case Ok(ps) => Ok(ps)
  }

  /** The variables of the unpacked bags, one bag after another. */
  function UnpackNames(unpacks: seq<seq<string>>): (r: seq<string>)
    decreases |unpacks|
  {
    if unpacks == [] then [] else UnpackNames(unpacks[..|unpacks| - 1]) + unpacks[|unpacks| - 1]
  }

  /** Where each unpacked bag's variables start, after `start` slots. */
  function Offsets(start: nat, unpacks: seq<seq<string>>): (r: seq<nat>)
    ensures |r| == |unpacks|
    decreases |unpacks|
  {
    if unpacks == [] then []
    else
      var init := unpacks[..|unpacks| - 1];
      Offsets(start, init) + [start + |UnpackNames(init)|]
  }

  function Widths(unpacks: seq<seq<string>>): (r: seq<nat>)
    ensures |r| == |unpacks| && forall j :: 0 <= j < |r| ==> r[j] == |unpacks[j]|
  {
    seq(|unpacks|, j requires 0 <= j < |unpacks| => |unpacks[j]|)
  }

  /** The LET variable names, in order. */
  function LetNames(lets: seq<LetSpec>): (r: seq<string>)
    ensures |r| == |lets| && forall k :: 0 <= k < |lets| ==> r[k] == lets[k].name
  {
    seq(|lets|, k requires 0 <= k < |lets| => lets[k].name)
  }

  /** The LETs, each given the slot after those before it and resolved
      against the names laid out so far, its own included. */
  function LetsOf(base: seq<string>, lets: seq<LetSpec>): (r: Result<seq<Let>, string>)
    ensures r.Ok? ==> |r.value| == |lets|
    decreases |lets|
  {
    if lets == [] then Ok([])
    else
      var n := |lets| - 1;
      match LetsOf(base, lets[..n])
      case Err(e) => Err(e)
      case Ok(ls) =>
        match Indices(base + LetNames(lets), lets[n].replacements)
        case Err(e) => Err(e)
        case Ok(ps) => Ok(ls + [Let(lets[n].expression, |base| + n, ps)])
  }

  function WheresOf(names: seq<string>, wheres: seq<WhereSpec>): (r: Result<seq<Where>, string>)
    ensures r.Ok? ==> |r.value| == |wheres|
    decreases |wheres|
  {
    if wheres == [] then Ok([])
    else
      var n := |wheres| - 1;
      match WheresOf(names, wheres[..n])
      case Err(e) => Err(e)
      case Ok(ws) =>
        match Indices(names, wheres[n].replacements)
        case Err(e) => Err(e)
        case Ok(ps) => Ok(ws + [Where(wheres[n].expression, ps)])
  }

  /** The slots of the aggregated fields: -1 for COUNT, else the slot of
      the named variable. */
  function AggIndices(names: seq<string>, aggs: seq<AggVar>): (r: Result<seq<int>, string>)
    ensures r.Ok? ==> |r.value| == |aggs|
    decreases |aggs|
  {
    if aggs == [] then Ok([])
    else
      var n := |aggs| - 1;
      match AggIndices(names, aggs[..n])
      case Err(e) => Err(e)
      case Ok(xs) =>
        if aggs[n].how == COUNT then Ok(xs + [-1])
        else
          var k := FirstIndex(names, aggs[n].name);
          if k < 0 then Err(UnknownVar(aggs[n].name)) else Ok(xs + [k])
  }

  /** The group-by keys' slots, then the aggregates'. */
  function GroupIndices(names: seq<string>, g: GroupBySpec): (r: Result<seq<int>, string>)
  {
    match Indices(names, g.groupBy)
    case Err(e) => Err(e)
    case Ok(ks) =>
      match AggIndices(names, g.aggregates)
      case Err(e) => Err(e)
      case Ok(as_) => Ok(ks + as_)
  }

  function AsInts(ps: seq<nat>): (r: seq<int>)
    ensures |r| == |ps| && forall i :: 0 <= i < |ps| ==> r[i] == ps[i]
  {
    seq(|ps|, i requires 0 <= i < |ps| => ps[i] as int)
  }

  function TupleIndices(names: seq<string>, vars: seq<string>): (r: Result<seq<int>, string>)
  {
    match Indices(names, vars)
    case Err(e) => Err(e)
    case Ok(ps) => Ok(AsInts(ps))
  }

  /** The outputter: PACK when there is one (EMIT is then ignored), else
      EMIT, else the advice is invalid. */
  function OutputOf(names: seq<string>, spec: AdviceSpec): (r: Result<(Destination, seq<int>), string>)
  {
    if spec.pack.Some? then
      match spec.pack.value
      case PackTuples(vars) => Tag(ToPack, TupleIndices(names, vars))
      case PackFiltered(_, vars) => Tag(ToPack, TupleIndices(names, vars))
      case PackGrouped(g) => Tag(ToPack, GroupIndices(names, g))
      case PackUnspecified => Err("PACK lacks specification")
    else if spec.emit.Some? then
      match spec.emit.value
      case EmitTuples(vars) => Tag(ToEmit, TupleIndices(names, vars))
      case EmitGrouped(g) => Tag(ToEmit, GroupIndices(names, g))
      case EmitUnspecified => Err("EMIT lacks specification")
    else Err("No PACK or EMIT specified")
  }

  function Tag(d: Destination, r: Result<seq<int>, string>): Result<(Destination, seq<int>), string>
  {
    match r
    case Err(e) => Err(e)
    case Ok(xs) => Ok((d, xs))
  }

  /** The slots before the LET variables. */
  function BaseNames(spec: AdviceSpec): seq<string>
  {
    spec.observe + UnpackNames(spec.unpacks)
  }

  /** All slot names: observed, unpacked, then LET variables. */
  function Layout(spec: AdviceSpec): seq<string>
  {
    BaseNames(spec) + LetNames(spec.lets)
  }

  /** The advice the specification configures, or the first reason it is
      invalid, checked in the constructor's order: LETs, WHEREs, output. */
  function Configure(spec: AdviceSpec): (r: Result<Advice, string>)
  {
    match LetsOf(BaseNames(spec), spec.lets)
    case Err(e) => Err(e)
    case Ok(ls) =>
      match WheresOf(Layout(spec), spec.wheres)
      case Err(e) => Err(e)
      case Ok(ws) =>
        match OutputOf(Layout(spec), spec)
        case Err(e) => Err(e)
        case Ok(out) =>
          Ok(Advice(Layout(spec), Offsets(|spec.observe|, spec.unpacks), Widths(spec.unpacks), ls, ws, out.0, out.1))
  }

  // ---------------------------------------------------------------------
  // What configuration accepts, and the layout it produces
  // ---------------------------------------------------------------------

  predicate AllKnown(names: seq<string>, vars: seq<string>)
  {
    forall i :: 0 <= i < |vars| ==> vars[i] in names
  }

  /** Every LET refers only to names laid out up to and including its own
      variable. */
  predicate LetsKnown(base: seq<string>, lets: seq<LetSpec>)
  {
    forall k :: 0 <= k < |lets| ==> AllKnown(base + LetNames(lets[..k + 1]), lets[k].replacements)
  }

  predicate WheresKnown(names: seq<string>, wheres: seq<WhereSpec>)
  {
    forall k :: 0 <= k < |wheres| ==> AllKnown(names, wheres[k].replacements)
  }

  predicate AggsKnown(names: seq<string>, aggs: seq<AggVar>)
  {
    forall i :: 0 <= i < |aggs| && aggs[i].how != COUNT ==> aggs[i].name in names
  }

  predicate GroupKnown(names: seq<string>, g: GroupBySpec)
  {
    AllKnown(names, g.groupBy) && AggsKnown(names, g.aggregates)
  }

  /** There is an output (PACK, or else EMIT) with a specification, and
      every name it uses is known. */
  predicate OutputKnown(names: seq<string>, spec: AdviceSpec)
  {
    if spec.pack.Some? then
      match spec.pack.value
      case PackTuples(vars) => AllKnown(names, vars)
      case PackFiltered(_, vars) => AllKnown(names, vars)
      case PackGrouped(g) => GroupKnown(names, g)
      case PackUnspecified => false
    else if spec.emit.Some? then
      match spec.emit.value
      case EmitTuples(vars) => AllKnown(names, vars)
      case EmitGrouped(g) => GroupKnown(names, g)
      case EmitUnspecified => false
    else false
  }

  lemma IndicesOk(names: seq<string>, vars: seq<string>)
    ensures Indices(names, vars).Ok? <==> AllKnown(names, vars)
    ensures Indices(names, vars).Ok? ==>
              var ps := Indices(names, vars).value;
              |ps| == |vars| && forall i :: 0 <= i < |ps| ==> ps[i] < |names| && names[ps[i]] == vars[i]
  {
    ResolveFinds(names, vars);
  }

  lemma {:induction false} LetsOfOk(base: seq<string>, lets: seq<LetSpec>)
    ensures LetsOf(base, lets).Ok? <==> LetsKnown(base, lets)
    decreases |lets|
  {
    if lets != [] {
      var n := |lets| - 1;
      LetsOfOk(base, lets[..n]);
      IndicesOk(base + LetNames(lets), lets[n].replacements);
      LetsKnownSnoc(base, lets);
    }
  }

  lemma LetsKnownSnoc(base: seq<string>, lets: seq<LetSpec>)
    requires lets != []
    ensures var n := |lets| - 1;
            LetsKnown(base, lets) <==> LetsKnown(base, lets[..n]) && AllKnown(base + LetNames(lets), lets[n].replacements)
  {
    var n := |lets| - 1;
    assert lets[..n + 1] == lets;
    forall k | 0 <= k < n
      ensures lets[..n][k] == lets[k] && lets[..n][..k + 1] == lets[..k + 1]
    {
    }
  }

  /** The `k`-th LET writes the slot after the base names and the LETs
      before it, and each of its replacements is a slot holding that name,
      at or before its own. */
  lemma {:induction false} LetsOfAt(base: seq<string>, lets: seq<LetSpec>, k: nat)
    requires LetsOf(base, lets).Ok? && k < |lets|
    ensures var l := LetsOf(base, lets).value[k];
      && l.expression == lets[k].expression
      && l.inputIndex == |base| + k
      && |l.replacements| == |lets[k].replacements|
      && forall i :: 0 <= i < |l.replacements| ==>
           l.replacements[i] <= |base| + k && (base + LetNames(lets))[l.replacements[i]] == lets[k].replacements[i]
    decreases |lets|
  {
    var n := |lets| - 1;
    var names := base + LetNames(lets);
    if k < n {
      LetsOfAt(base, lets[..n], k);
      var prefix := base + LetNames(lets[..n]);
      forall p | 0 <= p < |prefix|
        ensures prefix[p] == names[p]
      {
        if p >= |base| {
          assert prefix[p] == LetNames(lets[..n])[p - |base|];
        }
      }
    } else {
      IndicesOk(names, lets[n].replacements);
    }
  }

  lemma {:induction false} WheresOfOk(names: seq<string>, wheres: seq<WhereSpec>)
    ensures WheresOf(names, wheres).Ok? <==> WheresKnown(names, wheres)
    decreases |wheres|
  {
    if wheres != [] {
      var n := |wheres| - 1;
      WheresOfOk(names, wheres[..n]);
      IndicesOk(names, wheres[n].replacements);
      assert forall k :: 0 <= k < n ==> wheres[..n][k] == wheres[k];
    }
  }

  /** Each WHERE's replacements are slots holding those names. */
  lemma {:induction false} WheresOfAt(names: seq<string>, wheres: seq<WhereSpec>, k: nat)
    requires WheresOf(names, wheres).Ok? && k < |wheres|
    ensures var w := WheresOf(names, wheres).value[k];
      && w.expression == wheres[k].expression
      && |w.replacements| == |wheres[k].replacements|
      && forall i :: 0 <= i < |w.replacements| ==> w.replacements[i] < |names| && names[w.replacements[i]] == wheres[k].replacements[i]
    decreases |wheres|
  {
    var n := |wheres| - 1;
    if k < n {
      WheresOfAt(names, wheres[..n], k);
    } else {
      IndicesOk(names, wheres[n].replacements);
    }
  }

  /** COUNT fields read slot -1; every other aggregate reads the slot of
      its variable; resolving fails exactly when such a variable is
      unknown. */
  lemma {:induction false} AggIndicesOk(names: seq<string>, aggs: seq<AggVar>)
    ensures AggIndices(names, aggs).Ok? <==> AggsKnown(names, aggs)
    ensures AggIndices(names, aggs).Ok? ==>
              var xs := AggIndices(names, aggs).value;
              forall i :: 0 <= i < |xs| ==>
                (aggs[i].how == COUNT ==> xs[i] == -1) &&
                (aggs[i].how != COUNT ==> 0 <= xs[i] < |names| && names[xs[i]] == aggs[i].name)
    decreases |aggs|
  {
    if aggs != [] {
      var n := |aggs| - 1;
      AggIndicesOk(names, aggs[..n]);
      assert forall i :: 0 <= i < n ==> aggs[..n][i] == aggs[i];
    }
  }

  /** Configuration succeeds exactly when there is a specified output and
      every name used is known where it is used. */
  lemma ConfigureOk(spec: AdviceSpec)
    ensures Configure(spec).Ok? <==>
              LetsKnown(BaseNames(spec), spec.lets) && WheresKnown(Layout(spec), spec.wheres) && OutputKnown(Layout(spec), spec)
  {
    var names := Layout(spec);
    LetsOfOk(BaseNames(spec), spec.lets);
    WheresOfOk(names, spec.wheres);
    OutputOfOk(names, spec);
  }

  lemma OutputOfOk(names: seq<string>, spec: AdviceSpec)
    ensures OutputOf(names, spec).Ok? <==> OutputKnown(names, spec)
    ensures OutputOf(names, spec).Ok? ==> OutputOf(names, spec).value.0 == (if spec.pack.Some? then ToPack else ToEmit)
    ensures OutputOf(names, spec).Ok? ==> forall i :: 0 <= i < |OutputOf(names, spec).value.1| ==> -1 <= OutputOf(names, spec).value.1[i] < |names|
  {
    if spec.pack.Some? {
      match spec.pack.value
      case PackTuples(vars) => IndicesOk(names, vars);
      case PackFiltered(_, vars) => IndicesOk(names, vars);
      case PackGrouped(g) => GroupIndicesOk(names, g);
      case PackUnspecified =>
    } else if spec.emit.Some? {
      match spec.emit.value
      case EmitTuples(vars) => IndicesOk(names, vars);
      case EmitGrouped(g) => GroupIndicesOk(names, g);
      case EmitUnspecified =>
    }
  }

  /** A group-by output is the keys' slots, then one field per aggregate:
      -1 for COUNT, else the slot of its variable. */
  lemma GroupIndicesOk(names: seq<string>, g: GroupBySpec)
    ensures GroupIndices(names, g).Ok? <==> GroupKnown(names, g)
    ensures GroupIndices(names, g).Ok? ==>
              var xs := GroupIndices(names, g).value;
              var n := |g.groupBy|;
              && |xs| == n + |g.aggregates|
              && (forall i :: 0 <= i < n ==> 0 <= xs[i] < |names| && names[xs[i]] == g.groupBy[i])
              && (forall i :: 0 <= i < |g.aggregates| ==>
                    (g.aggregates[i].how == COUNT ==> xs[n + i] == -1) &&
                    (g.aggregates[i].how != COUNT ==> 0 <= xs[n + i] < |names| && names[xs[n + i]] == g.aggregates[i].name))
              && (forall i :: 0 <= i < |xs| ==> -1 <= xs[i] < |names|)
  {
    IndicesOk(names, g.groupBy);
    AggIndicesOk(names, g.aggregates);
    if GroupIndices(names, g).Ok? {
      var xs := GroupIndices(names, g).value;
      var n := |g.groupBy|;
      forall i | n <= i < |xs|
        ensures -1 <= xs[i] < |names|
      {
        assert g.aggregates[i - n].how == COUNT ==> xs[n + (i - n)] == -1;
      }
    }
  }

  /** Each unpacked bag's variables sit at its offset. */
  lemma {:induction false} UnpackLayout(start: nat, unpacks: seq<seq<string>>, j: nat)
    requires j < |unpacks|
    ensures var o := Offsets(start, unpacks)[j];
      && start <= o && o + |unpacks[j]| <= start + |UnpackNames(unpacks)|
      && UnpackNames(unpacks)[o - start..o - start + |unpacks[j]|] == unpacks[j]
    decreases |unpacks|
  {
    var n := |unpacks| - 1;
    var init := unpacks[..n];
    UnpackSnoc(start, unpacks);
    if j < n {
      UnpackLayout(start, init, j);
      assert unpacks[j] == init[j];
      var o := Offsets(start, init)[j];
      SliceOfPrefix(UnpackNames(init), unpacks[n], o - start, o - start + |unpacks[j]|);
    } else {
      assert UnpackNames(unpacks)[|UnpackNames(init)|..] == unpacks[n];
    }
  }

  lemma UnpackSnoc(start: nat, unpacks: seq<seq<string>>)
    requires unpacks != []
    ensures var init := unpacks[..|unpacks| - 1];
            && UnpackNames(unpacks) == UnpackNames(init) + unpacks[|unpacks| - 1]
            && Offsets(start, unpacks) == Offsets(start, init) + [start + |UnpackNames(init)|]
  {
  }

  lemma SliceOfPrefix<T>(a: seq<T>, b: seq<T>, i: nat, j: nat)
    requires i <= j <= |a|
    ensures (a + b)[i..j] == a[i..j]
  {
  }

  /** Each unpacked bag's slots end before the next bag's begin. */
  lemma {:induction false} OffsetsSeparated(start: nat, unpacks: seq<seq<string>>, j: nat, j': nat)
    requires j < j' < |unpacks|
    ensures Offsets(start, unpacks)[j] + |unpacks[j]| <= Offsets(start, unpacks)[j']
    decreases |unpacks|
  {
    var n := |unpacks| - 1;
    var init := unpacks[..n];
    assert unpacks[j] == init[j];
    assert Offsets(start, unpacks)[j] == Offsets(start, init)[j];
    if j' < n {
      OffsetsSeparated(start, init, j, j');
      assert Offsets(start, unpacks)[j'] == Offsets(start, init)[j'];
    } else {
      UnpackLayout(start, init, j);
    }
  }

  /** What a successful configuration is made of. */
  lemma ConfigureParts(spec: AdviceSpec)
    requires Configure(spec).Ok?
    ensures var a := Configure(spec).value;
      && a.tupleNames == Layout(spec)
      && a.offsets == Offsets(|spec.observe|, spec.unpacks)
      && a.widths == Widths(spec.unpacks)
      && LetsOf(BaseNames(spec), spec.lets) == Ok(a.lets)
      && WheresOf(Layout(spec), spec.wheres) == Ok(a.wheres)
      && OutputOf(Layout(spec), spec) == Ok((a.destination, a.outputIndices))
  {
  }

  /** A slice that falls inside the middle part of a concatenation is a
      slice of that part. */
  lemma SliceOfMiddle<T>(a: seq<T>, b: seq<T>, c: seq<T>, i: nat, j: nat)
    requires |a| <= i <= j <= |a| + |b|
    ensures (a + b + c)[i..j] == b[i - |a|..j - |a|]
  {
    assert forall k :: i <= k < j ==> (a + b + c)[k] == b[k - |a|];
  }

  /** The slots of an unpacked bag hold its variables, within the base
      names. */
  lemma LayoutAt(spec: AdviceSpec, j: nat)
    requires j < |spec.unpacks|
    ensures var o, w := Offsets(|spec.observe|, spec.unpacks)[j], |spec.unpacks[j]|;
      o + w <= |BaseNames(spec)| && Layout(spec)[o..o + w] == spec.unpacks[j]
  {
    var start := |spec.observe|;
    UnpackLayout(start, spec.unpacks, j);
    var o, w := Offsets(start, spec.unpacks)[j], |spec.unpacks[j]|;
    SliceOfMiddle(spec.observe, UnpackNames(spec.unpacks), LetNames(spec.lets), o, o + w);
  }

  /** A configured advice: the slots are the observed names, the unpacked
      bags' variables at their offsets and the LET variables. */
  lemma ConfigureLayout(spec: AdviceSpec)
    requires Configure(spec).Ok?
    ensures var a := Configure(spec).value;
      && a.tupleNames[..|spec.observe|] == spec.observe
      && |a.offsets| == |spec.unpacks|
      && (forall j :: 0 <= j < |spec.unpacks| ==>
            a.offsets[j] + |spec.unpacks[j]| <= |BaseNames(spec)| && a.tupleNames[a.offsets[j]..a.offsets[j] + |spec.unpacks[j]|] == spec.unpacks[j])
      && a.tupleNames[|BaseNames(spec)|..] == LetNames(spec.lets)
  {
    ConfigureParts(spec);
    var names := Layout(spec);
    assert names[..|spec.observe|] == spec.observe;
    assert names[|BaseNames(spec)|..] == LetNames(spec.lets);
    forall j | 0 <= j < |spec.unpacks|
      ensures Offsets(|spec.observe|, spec.unpacks)[j] + |spec.unpacks[j]| <= |BaseNames(spec)|
      ensures names[Offsets(|spec.observe|, spec.unpacks)[j]..Offsets(|spec.observe|, spec.unpacks)[j] + |spec.unpacks[j]|] == spec.unpacks[j]
    {
      LayoutAt(spec, j);
    }
  }

  /** Every slot a configured advice refers to exists. */
  lemma ConfigureWellFormed(spec: AdviceSpec)
    requires Configure(spec).Ok?
    ensures WellFormed(Configure(spec).value)
  {
    var a := Configure(spec).value;
    var start := |spec.observe|;
    var base := BaseNames(spec);
    ConfigureParts(spec);
    var n := |a.tupleNames|;
    forall j | 0 <= j < |a.offsets|
      ensures a.offsets[j] + a.widths[j] <= n
    {
      UnpackLayout(start, spec.unpacks, j);
    }
    forall k | 0 <= k < |a.lets|
      ensures a.lets[k].inputIndex < n && AllBelow(a.lets[k].replacements, n)
    {
      LetsOfAt(base, spec.lets, k);
    }
    forall k | 0 <= k < |a.wheres|
      ensures AllBelow(a.wheres[k].replacements, n)
    {
      WheresOfAt(a.tupleNames, spec.wheres, k);
    }
    OutputOfOk(a.tupleNames, spec);
  }

  // ---------------------------------------------------------------------
  // The constructor
  // ---------------------------------------------------------------------

  lemma {:induction false} LetsPrefixFails(base: seq<string>, lets: seq<LetSpec>, n: nat)
    requires n <= |lets| && LetsOf(base, lets[..n]).Err?
    ensures LetsOf(base, lets) == LetsOf(base, lets[..n])
    decreases |lets| - n
  {
    if n < |lets| {
      assert lets[..n + 1][..n] == lets[..n];
      LetsPrefixFails(base, lets, n + 1);
    } else {
      assert lets[..n] == lets;
    }
  }

  lemma {:induction false} WheresPrefixFails(names: seq<string>, wheres: seq<WhereSpec>, n: nat)
    requires n <= |wheres| && WheresOf(names, wheres[..n]).Err?
    ensures WheresOf(names, wheres) == WheresOf(names, wheres[..n])
    decreases |wheres| - n
  {
    if n < |wheres| {
      assert wheres[..n + 1][..n] == wheres[..n];
      WheresPrefixFails(names, wheres, n + 1);
    } else {
      assert wheres[..n] == wheres;
    }
  }

  lemma {:induction false} AggsPrefixFails(names: seq<string>, aggs: seq<AggVar>, n: nat)
    requires n <= |aggs| && AggIndices(names, aggs[..n]).Err?
    ensures AggIndices(names, aggs) == AggIndices(names, aggs[..n])
    decreases |aggs| - n
  {
    if n < |aggs| {
      assert aggs[..n + 1][..n] == aggs[..n];
      AggsPrefixFails(names, aggs, n + 1);
    } else {
      assert aggs[..n] == aggs;
    }
  }

  /** `indexOf` for each name, throwing (here: the error) at the first
      unknown one. */
  method IndicesOf(names: seq<string>, vars: seq<string>) returns (r: Result<seq<nat>, string>)
    ensures r == Indices(names, vars)
  {
    var ps: seq<nat> := [];
    for i := 0 to |vars|
      invariant Resolve(names, vars[..i]) == Ok(ps)
    {
      assert vars[..i + 1][..i] == vars[..i];
      var k := FirstIndex(names, vars[i]);
      if k == -1 {
        ResolvePrefixFails(names, vars, i + 1);
        return Err(UnknownVar(vars[i]));
      }
      ps := ps + [k];
    }
    assert vars[..|vars|] == vars;
    r := Ok(ps);
  }

  /** The slots of a tuple or filter specification's variables. */
  method TupleIndicesOf(names: seq<string>, vars: seq<string>) returns (r: Result<seq<int>, string>)
    ensures r == TupleIndices(names, vars)
  {
    var ps := IndicesOf(names, vars);
    if ps.Err? {
      return Err(ps.error);
    }
    var xs := new int[|ps.value|];
    for i := 0 to xs.Length
      invariant forall m :: 0 <= m < i ==> xs[m] == ps.value[m]
    {
      xs[i] := ps.value[i];
    }
    assert xs[..] == AsInts(ps.value);
    r := Ok(xs[..]);
  }

  /** The slots of a group-by specification: keys, then -1 for each COUNT
      and the variable's slot for any other aggregate. */
  method GroupIndicesOf(names: seq<string>, g: GroupBySpec) returns (r: Result<seq<int>, string>)
    ensures r == GroupIndices(names, g)
  {
    var ks := IndicesOf(names, g.groupBy);
    if ks.Err? {
      return Err(ks.error);
    }
    var xs: seq<int> := [];
    for i := 0 to |g.aggregates|
      invariant AggIndices(names, g.aggregates[..i]) == Ok(xs)
    {
      assert g.aggregates[..i + 1][..i] == g.aggregates[..i];
      if g.aggregates[i].how == COUNT {
        xs := xs + [-1];
      } else {
        var k := FirstIndex(names, g.aggregates[i].name);
        if k == -1 {
          AggsPrefixFails(names, g.aggregates, i + 1);
          return Err(UnknownVar(g.aggregates[i].name));
        }
        xs := xs + [k];
      }
    }
    assert g.aggregates[..|g.aggregates|] == g.aggregates;
    r := Ok(ks.value + xs);
  }

  /** The outputter's slots: PACK's specification when there is a PACK,
      else EMIT's, else invalid. */
  method OutputOfSpec(names: seq<string>, spec: AdviceSpec) returns (r: Result<(Destination, seq<int>), string>)
    ensures r == OutputOf(names, spec)
  {
    if spec.pack.Some? {
      match spec.pack.value
      case PackTuples(vars) =>
        var xs := TupleIndicesOf(names, vars);
        r := Tag(ToPack, xs);
      case PackFiltered(_, vars) =>
        var xs := TupleIndicesOf(names, vars);
        r := Tag(ToPack, xs);
      case PackGrouped(g) =>
        var xs := GroupIndicesOf(names, g);
        r := Tag(ToPack, xs);
      case PackUnspecified =>
        r := Err("PACK lacks specification");
    } else if spec.emit.Some? {
      match spec.emit.value
      case EmitTuples(vars) =>
        var xs := TupleIndicesOf(names, vars);
        r := Tag(ToEmit, xs);
      case EmitGrouped(g) =>
        var xs := GroupIndicesOf(names, g);
        r := Tag(ToEmit, xs);
      case EmitUnspecified =>
        r := Err("EMIT lacks specification");
    } else {
      r := Err("No PACK or EMIT specified");
    }
  }

  /** The unpackers: each bag's variables follow the slots so far, and
      its offset is where they start. */
  method LayOutUnpacks(observe: seq<string>, unpacks: seq<seq<string>>) returns (tupleNames: seq<string>, offsets: seq<nat>, widths: seq<nat>)
    ensures tupleNames == observe + UnpackNames(unpacks)
    ensures offsets == Offsets(|observe|, unpacks) && widths == Widths(unpacks)
  {
    tupleNames, offsets, widths := observe, [], [];
    for j := 0 to |unpacks|
      invariant tupleNames == observe + UnpackNames(unpacks[..j])
      invariant offsets == Offsets(|observe|, unpacks[..j])
      invariant widths == Widths(unpacks[..j])
    {
      UnpackStep(|observe|, unpacks, j);
      offsets := offsets + [|tupleNames|];
      widths := widths + [|unpacks[j]|];
      tupleNames := tupleNames + unpacks[j];
    }
    assert unpacks[..|unpacks|] == unpacks;
  }

  /** One more unpacked bag: its variables follow the slots so far. */
  lemma UnpackStep(start: nat, unpacks: seq<seq<string>>, j: nat)
    requires j < |unpacks|
    ensures UnpackNames(unpacks[..j + 1]) == UnpackNames(unpacks[..j]) + unpacks[j]
    ensures Offsets(start, unpacks[..j + 1]) == Offsets(start, unpacks[..j]) + [start + |UnpackNames(unpacks[..j])|]
    ensures Widths(unpacks[..j + 1]) == Widths(unpacks[..j]) + [|unpacks[j]|]
  {
    assert unpacks[..j + 1][..j] == unpacks[..j];
  }

  /** One more LET: its name follows the names so far, and it resolves
      against them. */
  lemma LetsOfSnoc(base: seq<string>, pre: seq<LetSpec>, l: LetSpec)
    ensures LetNames(pre + [l]) == LetNames(pre) + [l.name]
    ensures LetsOf(base, pre).Ok? ==>
              LetsOf(base, pre + [l])
              == match Indices(base + LetNames(pre + [l]), l.replacements)
                 case Err(e) => Err(e)
                 case Ok(ps) => Ok(LetsOf(base, pre).value + [Let(l.expression, |base| + |pre|, ps)])
  {
    assert (pre + [l])[..|pre|] == pre;
  }

  /** The `k`-th LET: add its variable, then resolve its replacements. */
  method LayOutLet(base: seq<string>, specs: seq<LetSpec>, k: nat, names: seq<string>, lets: seq<Let>)
    returns (names': seq<string>, r: Result<seq<Let>, string>)
    requires k < |specs| && names == base + LetNames(specs[..k]) && LetsOf(base, specs[..k]) == Ok(lets)
    ensures names' == base + LetNames(specs[..k + 1]) && r == LetsOf(base, specs[..k + 1])
  {
    assert specs[..k + 1] == specs[..k] + [specs[k]];
    LetsOfSnoc(base, specs[..k], specs[k]);
    names' := names + [specs[k].name];
    var ps := IndicesOf(names', specs[k].replacements);
    if ps.Err? {
      r := Err(ps.error);
    } else {
      r := Ok(lets + [Let(specs[k].expression, |names|, ps.value)]);
    }
  }

  /** The LETs: each adds its variable, then resolves its replacements
      against the names so far. */
  method LayOutLets(base: seq<string>, specs: seq<LetSpec>) returns (tupleNames: seq<string>, r: Result<seq<Let>, string>)
    ensures tupleNames == base + LetNames(specs) || r.Err?
    ensures r == LetsOf(base, specs)
  {
    tupleNames := base;
    var lets: seq<Let> := [];
    for k := 0 to |specs|
      invariant tupleNames == base + LetNames(specs[..k])
      invariant LetsOf(base, specs[..k]) == Ok(lets)
    {
      var next;
      tupleNames, next := LayOutLet(base, specs, k, tupleNames, lets);
      if next.Err? {
        LetsPrefixFails(base, specs, k + 1);
        return tupleNames, next;
      }
      lets := next.value;
    }
    assert specs[..|specs|] == specs;
    r := Ok(lets);
  }

  /** The WHEREs, each resolved against all the names. */
  method ResolveWheres(names: seq<string>, specs: seq<WhereSpec>) returns (r: Result<seq<Where>, string>)
    ensures r == WheresOf(names, specs)
  {
    var wheres: seq<Where> := [];
    for k := 0 to |specs|
      invariant WheresOf(names, specs[..k]) == Ok(wheres)
    {
      assert specs[..k + 1][..k] == specs[..k];
      var ps := IndicesOf(names, specs[k].replacements);
      if ps.Err? {
        WheresPrefixFails(names, specs, k + 1);
        return Err(ps.error);
      }
      wheres := wheres + [Where(specs[k].expression, ps.value)];
    }
    assert specs[..|specs|] == specs;
    r := Ok(wheres);
  }

  /** The constructor: lay out the observed names, the unpacked bags'
      variables and the LET variables, resolving each LET as it goes; then
      resolve the WHEREs and the output against all of them. */
  method Build(spec: AdviceSpec) returns (r: Result<Advice, string>)
    ensures r == Configure(spec)
  {
    var base, offsets, widths := LayOutUnpacks(spec.observe, spec.unpacks);
    var tupleNames, lets := LayOutLets(base, spec.lets);
    if lets.Err? {
      return Err(lets.error);
    }
    var wheres := ResolveWheres(tupleNames, spec.wheres);
    if wheres.Err? {
      return Err(wheres.error);
    }
    var out := OutputOfSpec(tupleNames, spec);
    if out.Err? {
      return Err(out.error);
    }
    r := Ok(Advice(tupleNames, offsets, widths, lets.value, wheres.value, out.value.0, out.value.1));
  }

  // ---------------------------------------------------------------------
  // The join: every combination of unpacked tuples, in mixed radix
  // ---------------------------------------------------------------------

  /** The number of combinations: the product of the bag sizes. */
  function Prod(sizes: seq<nat>): (r: nat)
    ensures r > 0 <==> AllPositive(sizes)
    decreases |sizes|
  {
    if sizes == [] then 1
    else
      assert AllPositive(sizes) <==> sizes[0] > 0 && AllPositive(sizes[1..]) by {
        if sizes[0] > 0 && AllPositive(sizes[1..]) {
          forall k | 0 <= k < |sizes|
            ensures sizes[k] > 0
          {
            if k > 0 {
              assert sizes[k] == sizes[1..][k - 1];
            }
          }
        }
      }
      sizes[0] * Prod(sizes[1..])
  }

  function Sizes(bags: seq<seq<seq<Value>>>): (r: seq<nat>)
    ensures |r| == |bags| && forall j :: 0 <= j < |bags| ==> r[j] == |bags[j]|
  {
    seq(|bags|, j requires 0 <= j < |bags| => |bags[j]|)
  }

  predicate AllPositive(sizes: seq<nat>)
  {
    forall k :: 0 <= k < |sizes| ==> sizes[k] > 0
  }

  /** The tuple each bag contributes to combination `i`: the first bag's
      index is the lowest digit. */
  function Digits(i: nat, sizes: seq<nat>): (r: seq<nat>)
    requires AllPositive(sizes)
    ensures |r| == |sizes| && forall k :: 0 <= k < |r| ==> r[k] < sizes[k]
    decreases |sizes|
  {
    if sizes == [] then [] else [i % sizes[0]] + Digits(i / sizes[0], sizes[1..])
  }

  /** The combination whose digits are `ds`. */
  function FromDigits(ds: seq<nat>, sizes: seq<nat>): nat
    requires |ds| == |sizes|
    decreases |sizes|
  {
    if sizes == [] then 0 else ds[0] + sizes[0] * FromDigits(ds[1..], sizes[1..])
  }

  lemma {:induction false} ProdSnoc(sizes: seq<nat>, s: nat)
    ensures Prod(sizes + [s]) == Prod(sizes) * s
    decreases |sizes|
  {
    if sizes != [] {
      assert (sizes + [s])[1..] == sizes[1..] + [s];
      ProdSnoc(sizes[1..], s);
    } else {
      assert Prod([s]) == s * Prod([]);
    }
  }

  /** Every combination below the count is the combination of its digits. */
  lemma {:induction false} DigitsRoundTrip(i: nat, sizes: seq<nat>)
    requires AllPositive(sizes) && i < Prod(sizes)
    ensures FromDigits(Digits(i, sizes), sizes) == i
    decreases |sizes|
  {
    if sizes != [] {
      var s := sizes[0];
      var q := i / s;
      AllPositiveTail(sizes);
      DivBelow(i, s, Prod(sizes[1..]));
      DigitsRoundTrip(q, sizes[1..]);
      var ds := Digits(i, sizes);
      assert ds[0] == i % s && ds[1..] == Digits(q, sizes[1..]);
      Recompose(i, s);
    }
  }

  lemma Recompose(i: nat, s: nat)
    requires s > 0
    ensures i % s + s * (i / s) == i
  {
  }

  lemma DivBelow(i: nat, s: nat, p: nat)
    requires s > 0 && i < s * p
    ensures i / s < p
  {
    var q := i / s;
    assert s * q <= i;
    if q >= p {
      MulMono(s, p, q);
      assert false;
    }
  }

  lemma MulMono(s: nat, a: nat, b: nat)
    requires a <= b
    ensures s * a <= s * b
  {
  }

  /** Every choice of one tuple per bag is a combination below the
      count, and it is the one whose digits are that choice. */
  lemma {:induction false} FromDigitsRoundTrip(ds: seq<nat>, sizes: seq<nat>)
    requires |ds| == |sizes| && forall k :: 0 <= k < |ds| ==> ds[k] < sizes[k]
    ensures AllPositive(sizes)
    ensures FromDigits(ds, sizes) < Prod(sizes)
    ensures Digits(FromDigits(ds, sizes), sizes) == ds
    decreases |sizes|
  {
    if sizes != [] {
      var s := sizes[0];
      forall k | 0 <= k < |ds| - 1
        ensures ds[1..][k] < sizes[1..][k]
      {
        assert ds[1..][k] == ds[k + 1] && sizes[1..][k] == sizes[k + 1];
      }
      FromDigitsRoundTrip(ds[1..], sizes[1..]);
      var rest := FromDigits(ds[1..], sizes[1..]);
      DigitStep(ds[0], s, rest, Prod(sizes[1..]));
      AllPositiveCons(sizes);
      assert Digits(ds[0] + s * rest, sizes) == [ds[0]] + ds[1..];
    }
  }

  lemma AllPositiveCons(sizes: seq<nat>)
    requires sizes != [] && sizes[0] > 0 && AllPositive(sizes[1..])
    ensures AllPositive(sizes)
  {
    forall k | 0 < k < |sizes|
      ensures sizes[k] > 0
    {
      assert sizes[k] == sizes[1..][k - 1];
    }
  }

  /** A digit below its radix, and the rest below the count of the
      remaining digits: the lowest digit and the rest come back out. */
  lemma DigitStep(d: nat, s: nat, rest: nat, p: nat)
    requires d < s && rest < p
    ensures (d + s * rest) % s == d && (d + s * rest) / s == rest
    ensures d + s * rest < s * p
  {
    DivMod(d, s, rest);
    MulMono(s, rest + 1, p);
    assert s * (rest + 1) == s * rest + s;
  }

  lemma DivMod(d: nat, s: nat, q: nat)
    requires d < s
    ensures (d + s * q) % s == d && (d + s * q) / s == q
  {
    var r := d + s * q;
    var q' := r / s;
    var d' := r % s;
    assert r == s * q' + d';
    assert s * (q' - q) == d - d' by {
      assert s * q' - s * q == s * (q' - q);
    }
    if q' > q {
      MulMono(s, 1, q' - q);
      assert false;
    } else if q' < q {
      MulMono(s, 1, q - q');
      assert false;
    }
  }

  /** `t` with `u` written over it from `off` on (`System.arraycopy`). */
  function Overlay(t: seq<Value>, off: nat, u: seq<Value>): (r: seq<Value>)
    requires off + |u| <= |t|
    ensures |r| == |t|
  {
    t[..off] + u + t[off + |u|..]
  }

  /** Each chosen tuple fits the tuple at its bag's offset. */
  predicate Fit(t: seq<Value>, offs: seq<nat>, bags: seq<seq<seq<Value>>>)
  {
    && |offs| == |bags|
    && forall j, m :: 0 <= j < |bags| && 0 <= m < |bags[j]| ==> offs[j] + |bags[j][m]| <= |t|
  }

  /** The tuple with the chosen tuple of each bag copied in, in bag order. */
  function Joined(t: seq<Value>, offs: seq<nat>, bags: seq<seq<seq<Value>>>, ds: seq<nat>): (r: seq<Value>)
    requires Fit(t, offs, bags) && |ds| == |bags| && forall k :: 0 <= k < |ds| ==> ds[k] < |bags[k]|
    ensures |r| == |t|
    decreases |bags|
  {
    if bags == [] then t
    else
      var t' := Overlay(t, offs[0], bags[0][ds[0]]);
      assert Fit(t', offs[1..], bags[1..]) by {
        forall j, m | 0 <= j < |bags| - 1 && 0 <= m < |bags[1..][j]|
          ensures offs[1..][j] + |bags[1..][j][m]| <= |t'|
        {
          assert bags[1..][j] == bags[j + 1] && offs[1..][j] == offs[j + 1];
        }
      }
      Joined(t', offs[1..], bags[1..], ds[1..])
  }

  /** The values at the given slots. */
  function Project(t: seq<Value>, ps: seq<nat>): (r: seq<Value>)
    requires AllBelow(ps, |t|)
    ensures |r| == |ps| && forall i :: 0 <= i < |ps| ==> r[i] == t[ps[i]]
  {
    seq(|ps|, i requires 0 <= i < |ps| => t[ps[i]])
  }

  predicate LetsFit(lets: seq<Let>, n: nat)
  {
    forall k :: 0 <= k < |lets| ==> lets[k].inputIndex < n && AllBelow(lets[k].replacements, n)
  }

  predicate WheresFit(wheres: seq<Where>, n: nat)
  {
    forall k :: 0 <= k < |wheres| ==> AllBelow(wheres[k].replacements, n)
  }

  /** Each LET in turn writes its slot with its expression evaluated on
      the values of its replacement slots. */
  function ApplyLets(t: seq<Value>, lets: seq<Let>, eval: (string, seq<Value>) -> Value): (r: seq<Value>)
    requires LetsFit(lets, |t|)
    ensures |r| == |t|
    decreases |lets|
  {
    if lets == [] then t
    else
      var l := lets[0];
      assert LetsFit(lets[1..], |t|) by {
        forall k | 0 <= k < |lets| - 1
          ensures lets[1..][k].inputIndex < |t| && AllBelow(lets[1..][k].replacements, |t|)
        {
          assert lets[1..][k] == lets[k + 1];
        }
      }
      ApplyLets(t[l.inputIndex := eval(l.expression, Project(t, l.replacements))], lets[1..], eval)
  }

  /** Every WHERE holds, checked in order. */
  function Passes(t: seq<Value>, wheres: seq<Where>, test: (string, seq<Value>) -> bool): bool
    requires WheresFit(wheres, |t|)
    decreases |wheres|
  {
    if wheres == [] then true
    else
      assert WheresFit(wheres[1..], |t|) by {
        forall k | 0 <= k < |wheres| - 1
          ensures AllBelow(wheres[1..][k].replacements, |t|)
        {
          assert wheres[1..][k] == wheres[k + 1];
        }
      }
      test(wheres[0].expression, Project(t, wheres[0].replacements)) && Passes(t, wheres[1..], test)
  }

  /** `makeOutputTuple`: the long 1 for a COUNT field, else the value of
      its slot. */
  function MakeOutput(t: seq<Value>, idx: seq<int>): (r: seq<Value>)
    requires forall i :: 0 <= i < |idx| ==> -1 <= idx[i] < |t|
  {
    seq(|idx|, i requires 0 <= i < |idx| => if idx[i] == -1 then Integral(1) else t[idx[i]])
  }

  /** The advice fits the tuple it builds and the bags it joins. */
  predicate Ready(a: Advice, t: seq<Value>, bags: seq<seq<seq<Value>>>)
  {
    && Fit(t, a.offsets, bags)
    && LetsFit(a.lets, |t|)
    && WheresFit(a.wheres, |t|)
    && (forall i :: 0 <= i < |a.outputIndices| ==> -1 <= a.outputIndices[i] < |t|)
  }

  /** One combination: the tuple after the join and the LETs, and the
      output tuple when every WHERE holds. */
  function Step(a: Advice, t: seq<Value>, bags: seq<seq<seq<Value>>>, eval: (string, seq<Value>) -> Value,
                test: (string, seq<Value>) -> bool, i: nat): (r: (seq<Value>, Option<seq<Value>>))
    requires Ready(a, t, bags) && AllPositive(Sizes(bags))
    ensures |r.0| == |t|
  {
    var t' := ApplyLets(Joined(t, a.offsets, bags, Digits(i, Sizes(bags))), a.lets, eval);
    (t', if Passes(t', a.wheres, test) then Some(MakeOutput(t', a.outputIndices)) else None)
  }

  /** The outputs one combination adds. */
  function Emitted(output: Option<seq<Value>>): (r: seq<seq<Value>>)
    ensures |r| <= 1
  {
    if output.Some? then [output.value] else []
  }

  /** Readiness depends on the tuple's length only. */
  lemma ReadyLength(a: Advice, t: seq<Value>, t': seq<Value>, bags: seq<seq<seq<Value>>>)
    requires Ready(a, t, bags) && |t'| == |t|
    ensures Ready(a, t', bags)
  {
  }

  /** The tuple after `n` combinations, and the outputs so far: each
      combination overwrites the unpacked slots, evaluates the LETs and,
      when every WHERE holds, adds an output tuple. The tuple is reused, so
      a slot no combination writes keeps its value. */
  function Run(a: Advice, t0: seq<Value>, bags: seq<seq<seq<Value>>>, eval: (string, seq<Value>) -> Value,
               test: (string, seq<Value>) -> bool, n: nat): (r: (seq<Value>, seq<seq<Value>>))
    requires Ready(a, t0, bags) && (n > 0 ==> AllPositive(Sizes(bags)))
    ensures |r.0| == |t0| && |r.1| <= n
    ensures a.wheres == [] ==> |r.1| == n
    ensures OutputWidths(r.1, |a.outputIndices|)
    decreases n
  {
    if n == 0 then (t0, [])
    else
      var prev := Run(a, t0, bags, eval, test, n - 1);
      ReadyLength(a, t0, prev.0, bags);
      var s := Step(a, prev.0, bags, eval, test, n - 1);
      StepOutput(a, prev.0, bags, eval, test, n - 1);
      WidthsAppend(prev.1, Emitted(s.1), |a.outputIndices|);
      (s.0, prev.1 + Emitted(s.1))
  }

  /** The tuple an invocation starts from: the values passed, the rest
      null. */
  function Initial(values: seq<Value>, n: nat): (r: seq<Value>)
    requires |values| <= n
    ensures |r| == n
  {
    values + seq(n - |values|, _ => Null)
  }

  // ---------------------------------------------------------------------
  // What a combination leaves in the tuple, and what a run outputs
  // ---------------------------------------------------------------------

  /** The chosen tuples land in disjoint slot ranges, in bag order (the
      layout gives each unpack its own range after the observed values). */
  predicate Separated(offs: seq<nat>, bags: seq<seq<seq<Value>>>, ds: seq<nat>)
    requires |offs| == |bags| && |ds| == |bags| && forall k :: 0 <= k < |ds| ==> ds[k] < |bags[k]|
  {
    forall j, j' :: 0 <= j < j' < |bags| ==> offs[j] + |bags[j][ds[j]]| <= offs[j']
  }

  /** A slot no chosen tuple covers keeps its value through the join. */
  lemma {:induction false} JoinedOutside(t: seq<Value>, offs: seq<nat>, bags: seq<seq<seq<Value>>>, ds: seq<nat>, p: nat)
    requires Fit(t, offs, bags) && |ds| == |bags| && forall k :: 0 <= k < |ds| ==> ds[k] < |bags[k]|
    requires p < |t|
    requires forall j :: 0 <= j < |bags| ==> !(offs[j] <= p < offs[j] + |bags[j][ds[j]]|)
    ensures Joined(t, offs, bags, ds)[p] == t[p]
    decreases |bags|
  {
    if bags != [] {
      var t' := Overlay(t, offs[0], bags[0][ds[0]]);
      JoinTail(t, t', offs, bags, ds);
      OutsideTail(offs, bags, ds, p, 1);
      JoinedOutside(t', offs[1..], bags[1..], ds[1..], p);
    }
  }

  /** After the first bag, the rest of the join fits the overlaid tuple. */
  lemma JoinTail(t: seq<Value>, t': seq<Value>, offs: seq<nat>, bags: seq<seq<seq<Value>>>, ds: seq<nat>)
    requires Fit(t, offs, bags) && |ds| == |bags| && forall k :: 0 <= k < |ds| ==> ds[k] < |bags[k]|
    requires bags != [] && t' == Overlay(t, offs[0], bags[0][ds[0]])
    ensures Fit(t', offs[1..], bags[1..])
    ensures forall k :: 0 <= k < |ds| - 1 ==> ds[1..][k] < |bags[1..][k]|
    ensures Joined(t, offs, bags, ds) == Joined(t', offs[1..], bags[1..], ds[1..])
  {
    FitSuffix(t, offs, bags, 1);
    forall k | 0 <= k < |ds| - 1
      ensures ds[1..][k] < |bags[1..][k]|
    {
      assert ds[1..][k] == ds[k + 1] && bags[1..][k] == bags[k + 1];
    }
  }

  /** A slot outside the ranges of bags `start` on is outside those of
      the tail's bags `start - 1` on. */
  lemma OutsideTail(offs: seq<nat>, bags: seq<seq<seq<Value>>>, ds: seq<nat>, p: nat, start: nat)
    requires |offs| == |bags| && |ds| == |bags| && forall k :: 0 <= k < |ds| ==> ds[k] < |bags[k]|
    requires bags != [] && 1 <= start
    requires forall j :: start <= j < |bags| ==> !(offs[j] <= p < offs[j] + |bags[j][ds[j]]|)
    ensures forall j :: start - 1 <= j < |bags| - 1 ==> !(offs[1..][j] <= p < offs[1..][j] + |bags[1..][j][ds[1..][j]]|)
  {
    forall j | start - 1 <= j < |bags| - 1
      ensures !(offs[1..][j] <= p < offs[1..][j] + |bags[1..][j][ds[1..][j]]|)
    {
      assert offs[1..][j] == offs[j + 1] && bags[1..][j] == bags[j + 1] && ds[1..][j] == ds[j + 1];
    }
  }

  lemma SeparatedTail(offs: seq<nat>, bags: seq<seq<seq<Value>>>, ds: seq<nat>)
    requires |offs| == |bags| && |ds| == |bags| && forall k :: 0 <= k < |ds| ==> ds[k] < |bags[k]|
    requires bags != [] && Separated(offs, bags, ds)
    requires forall k :: 0 <= k < |ds| - 1 ==> ds[1..][k] < |bags[1..][k]|
    ensures Separated(offs[1..], bags[1..], ds[1..])
    ensures forall j :: 1 <= j < |bags| ==> offs[0] + |bags[0][ds[0]]| <= offs[j]
  {
    forall i, i' | 0 <= i < i' < |bags| - 1
      ensures offs[1..][i] + |bags[1..][i][ds[1..][i]]| <= offs[1..][i']
    {
      assert offs[1..][i] == offs[i + 1] && offs[1..][i'] == offs[i' + 1];
      assert bags[1..][i] == bags[i + 1] && ds[1..][i] == ds[i + 1];
    }
  }

  /** With separated ranges, slot `offs[j] + k` of the joined tuple holds
      field `k` of the tuple chosen from bag `j`. */
  lemma {:induction false} JoinedAt(t: seq<Value>, offs: seq<nat>, bags: seq<seq<seq<Value>>>, ds: seq<nat>, j: nat, k: nat)
    requires Fit(t, offs, bags) && |ds| == |bags| && forall k :: 0 <= k < |ds| ==> ds[k] < |bags[k]|
    requires Separated(offs, bags, ds)
    requires j < |bags| && k < |bags[j][ds[j]]|
    ensures offs[j] + k < |t|
    ensures Joined(t, offs, bags, ds)[offs[j] + k] == bags[j][ds[j]][k]
    decreases |bags|
  {
    var t' := Overlay(t, offs[0], bags[0][ds[0]]);
    JoinTail(t, t', offs, bags, ds);
    SeparatedTail(offs, bags, ds);
    if j == 0 {
      var p := offs[0] + k;
      OutsideTail(offs, bags, ds, p, 1);
      JoinedOutside(t', offs[1..], bags[1..], ds[1..], p);
    } else {
      assert offs[1..][j - 1] == offs[j] && bags[1..][j - 1] == bags[j] && ds[1..][j - 1] == ds[j];
      JoinedAt(t', offs[1..], bags[1..], ds[1..], j - 1, k);
    }
  }

  /** A slot no LET writes keeps its value through the LETs. */
  lemma {:induction false} ApplyLetsOutside(t: seq<Value>, lets: seq<Let>, eval: (string, seq<Value>) -> Value, p: nat)
    requires LetsFit(lets, |t|) && p < |t|
    requires forall k :: 0 <= k < |lets| ==> lets[k].inputIndex != p
    ensures ApplyLets(t, lets, eval)[p] == t[p]
    decreases |lets|
  {
    if lets != [] {
      var l := lets[0];
      var t' := t[l.inputIndex := eval(l.expression, Project(t, l.replacements))];
      assert LetsFit(lets[1..], |t'|) by {
        forall k | 0 <= k < |lets| - 1
          ensures lets[1..][k].inputIndex < |t'| && AllBelow(lets[1..][k].replacements, |t'|)
        {
          assert lets[1..][k] == lets[k + 1];
        }
      }
      forall k | 0 <= k < |lets| - 1
        ensures lets[1..][k].inputIndex != p
      {
        assert lets[1..][k] == lets[k + 1];
      }
      ApplyLetsOutside(t', lets[1..], eval, p);
    }
  }

  /** Every output tuple has `w` fields. */
  predicate OutputWidths(outs: seq<seq<Value>>, w: nat)
  {
    forall k :: 0 <= k < |outs| ==> |outs[k]| == w
  }

  lemma WidthsAppend(xs: seq<seq<Value>>, ys: seq<seq<Value>>, w: nat)
    requires OutputWidths(xs, w) && OutputWidths(ys, w)
    ensures OutputWidths(xs + ys, w)
  {
  }

  /** A combination outputs when there is no WHERE, and its output has one
      field per output index. */
  lemma StepOutput(a: Advice, t: seq<Value>, bags: seq<seq<seq<Value>>>, eval: (string, seq<Value>) -> Value,
                   test: (string, seq<Value>) -> bool, i: nat)
    requires Ready(a, t, bags) && AllPositive(Sizes(bags))
    ensures a.wheres == [] ==> Step(a, t, bags, eval, test, i).1.Some?
    ensures OutputWidths(Emitted(Step(a, t, bags, eval, test, i).1), |a.outputIndices|)
  {
  }

  /** An empty bag leaves no combination, so the advice outputs nothing;
      with no bag at all there is exactly one. */
  lemma NoCombinations(a: Advice, t0: seq<Value>, bags: seq<seq<seq<Value>>>,
                       eval: (string, seq<Value>) -> Value, test: (string, seq<Value>) -> bool)
    requires Ready(a, t0, bags)
    ensures Prod(Sizes(bags)) == 0 <==> exists j :: 0 <= j < |bags| && bags[j] == []
    ensures (exists j :: 0 <= j < |bags| && bags[j] == []) ==> Run(a, t0, bags, eval, test, Prod(Sizes(bags))).1 == []
    ensures bags == [] ==> Prod(Sizes(bags)) == 1
  {
  }

  // ---------------------------------------------------------------------
  // `advise`
  // ---------------------------------------------------------------------

  /** `System.arraycopy` of `u` into the tuple at `off`. */
  method CopyInto(tuple: array<Value>, off: nat, u: seq<Value>)
    requires off + |u| <= tuple.Length
    modifies tuple
    ensures tuple[..] == Overlay(old(tuple[..]), off, u)
  {
    for m := 0 to |u|
      invariant forall p :: 0 <= p < tuple.Length ==> tuple[p] == (if off <= p < off + m then u[p - off] else old(tuple[p]))
    {
      tuple[off + m] := u[m];
    }
  }

  lemma AllPositiveTail(sizes: seq<nat>)
    requires sizes != [] && AllPositive(sizes)
    ensures AllPositive(sizes[1..])
  {
    forall k | 0 <= k < |sizes| - 1
      ensures sizes[1..][k] > 0
    {
      assert sizes[1..][k] == sizes[k + 1];
    }
  }

  /** Joining the bags from the `j`-th on. */
  lemma FitSuffix(t: seq<Value>, offs: seq<nat>, bags: seq<seq<seq<Value>>>, j: nat)
    requires Fit(t, offs, bags) && j <= |bags|
    ensures Fit(t, offs[j..], bags[j..])
  {
    forall k, m | 0 <= k < |bags| - j && 0 <= m < |bags[j..][k]|
      ensures offs[j..][k] + |bags[j..][k][m]| <= |t|
    {
      assert bags[j..][k] == bags[j + k] && offs[j..][k] == offs[j + k];
    }
  }

  /** Joining from bag `j` on, at digits `l`, turns `t` into `goal`. */
  ghost predicate JoinsTo(goal: seq<Value>, t: seq<Value>, offs: seq<nat>, bags: seq<seq<seq<Value>>>, j: nat, l: nat)
  {
    && |offs| == |bags| && j <= |bags|
    && Fit(t, offs[j..], bags[j..]) && AllPositive(Sizes(bags[j..]))
    && goal == Joined(t, offs[j..], bags[j..], Digits(l, Sizes(bags[j..])))
  }

  /** Joining from bag `j` on is copying in bag `j`'s tuple at the lowest
      digit, then joining from bag `j + 1` on at the remaining digits. */
  lemma JoinStep(goal: seq<Value>, t: seq<Value>, offs: seq<nat>, bags: seq<seq<seq<Value>>>, j: nat, l: nat)
    requires JoinsTo(goal, t, offs, bags, j, l) && j < |bags|
    ensures |bags[j]| > 0 && offs[j] + |bags[j][l % |bags[j]|]| <= |t|
    ensures JoinsTo(goal, Overlay(t, offs[j], bags[j][l % |bags[j]|]), offs, bags, j + 1, l / |bags[j]|)
  {
    var sizes := Sizes(bags[j..]);
    assert sizes[0] == |bags[j]| && sizes[1..] == Sizes(bags[j + 1..]);
    assert bags[j..][0] == bags[j] && bags[j..][1..] == bags[j + 1..];
    assert offs[j..][0] == offs[j] && offs[j..][1..] == offs[j + 1..];
    FitSuffix(t, offs[j..], bags[j..], 1);
    AllPositiveTail(sizes);
  }

  lemma JoinsFrom(t: seq<Value>, offs: seq<nat>, bags: seq<seq<seq<Value>>>, i: nat)
    requires Fit(t, offs, bags) && AllPositive(Sizes(bags))
    ensures JoinsTo(Joined(t, offs, bags, Digits(i, Sizes(bags))), t, offs, bags, 0, i)
  {
    assert offs[0..] == offs && bags[0..] == bags;
  }

  lemma JoinsDone(goal: seq<Value>, t: seq<Value>, offs: seq<nat>, bags: seq<seq<seq<Value>>>, l: nat)
    requires JoinsTo(goal, t, offs, bags, |bags|, l)
    ensures goal == t
  {
  }

  /** The join of combination `i`: for each bag in turn, copy in its
      tuple at the current lowest digit, then move to the next digit. */
  method JoinInto(offsets: seq<nat>, tuple: array<Value>, bags: seq<seq<seq<Value>>>, i: nat)
    requires Fit(tuple[..], offsets, bags) && AllPositive(Sizes(bags))
    modifies tuple
    ensures tuple[..] == Joined(old(tuple[..]), offsets, bags, Digits(i, Sizes(bags)))
  {
    ghost var goal := Joined(tuple[..], offsets, bags, Digits(i, Sizes(bags)));
    JoinsFrom(tuple[..], offsets, bags, i);
    var l: nat := i;
    for j := 0 to |bags|
      invariant JoinsTo(goal, tuple[..], offsets, bags, j, l)
    {
      ghost var t := tuple[..];
      JoinStep(goal, t, offsets, bags, j, l);
      var u := bags[j][l % |bags[j]|];
      CopyInto(tuple, offsets[j], u);
      l := l / |bags[j]|;
    }
    JoinsDone(goal, tuple[..], offsets, bags, l);
  }

  /** LET: evaluate each LET in turn into its slot. */
  method ApplyLetsTo(tuple: array<Value>, lets: seq<Let>, eval: (string, seq<Value>) -> Value)
    requires LetsFit(lets, tuple.Length)
    modifies tuple
    ensures tuple[..] == ApplyLets(old(tuple[..]), lets, eval)
  {
    for k := 0 to |lets|
      invariant LetsFit(lets[k..], tuple.Length)
      invariant ApplyLets(old(tuple[..]), lets, eval) == ApplyLets(tuple[..], lets[k..], eval)
    {
      var l := lets[k];
      assert lets[k..][0] == l && lets[k..][1..] == lets[k + 1..];
      tuple[l.inputIndex] := eval(l.expression, Project(tuple[..], l.replacements));
    }
  }

  /** WHERE: test each predicate in turn, stopping at the first that
      fails. */
  method Satisfies(tuple: array<Value>, wheres: seq<Where>, test: (string, seq<Value>) -> bool) returns (pass: bool)
    requires WheresFit(wheres, tuple.Length)
    ensures pass == Passes(tuple[..], wheres, test)
  {
    var k := 0;
    while k < |wheres| && test(wheres[k].expression, Project(tuple[..], wheres[k].replacements))
      invariant 0 <= k <= |wheres| && WheresFit(wheres[k..], tuple.Length)
      invariant Passes(tuple[..], wheres, test) == Passes(tuple[..], wheres[k..], test)
    {
      assert wheres[k..][0] == wheres[k] && wheres[k..][1..] == wheres[k + 1..];
      k := k + 1;
    }
    if k < |wheres| {
      assert wheres[k..][0] == wheres[k];
    }
    pass := k == |wheres|;
  }

  /** `makeOutputTuple`. */
  method MakeOutputTuple(tuple: array<Value>, idx: seq<int>) returns (output: seq<Value>)
    requires forall i :: 0 <= i < |idx| ==> -1 <= idx[i] < tuple.Length
    ensures output == MakeOutput(tuple[..], idx)
  {
    var out := new Value[|idx|];
    for i := 0 to |idx|
      invariant forall m :: 0 <= m < i ==> out[m] == MakeOutput(tuple[..], idx)[m]
    {
      var j := idx[i];
      if j == -1 {
        out[i] := Integral(1);
      } else {
        out[i] := tuple[j];
      }
    }
    output := out[..];
  }

  /** One pass of the tuple loop: join combination `i`, evaluate the
      LETs, and make the output tuple if every WHERE holds. */
  method Combine(a: Advice, tuple: array<Value>, bags: seq<seq<seq<Value>>>,
                 eval: (string, seq<Value>) -> Value, test: (string, seq<Value>) -> bool, i: nat)
    returns (output: Option<seq<Value>>)
    requires Ready(a, tuple[..], bags) && AllPositive(Sizes(bags))
    modifies tuple
    ensures (tuple[..], output) == Step(a, old(tuple[..]), bags, eval, test, i)
  {
    JoinInto(a.offsets, tuple, bags, i);
    ApplyLetsTo(tuple, a.lets, eval);
    var pass := Satisfies(tuple, a.wheres, test);
    if pass {
      var o := MakeOutputTuple(tuple, a.outputIndices);
      output := Some(o);
    } else {
      output := None;
    }
  }

  /** The number of combinations of the bags' tuples: the product of
      their sizes. */
  method CombinationCount(bags: seq<seq<seq<Value>>>) returns (count: nat)
    ensures count == Prod(Sizes(bags))
  {
    count := 1;
    for j := 0 to |bags|
      invariant count == Prod(Sizes(bags)[..j])
    {
      assert Sizes(bags)[..j + 1] == Sizes(bags)[..j] + [|bags[j]|];
      ProdSnoc(Sizes(bags)[..j], |bags[j]|);
      count := count * |bags[j]|;
    }
    assert Sizes(bags)[..|bags|] == Sizes(bags);
  }

  /** `advise`: start a tuple from the observed values, then for every
      combination of the unpacked bags' tuples join, evaluate the LETs and
      keep an output tuple when all WHEREs hold. The bags are what the
      unpackers return, and LET and WHERE are evaluated by `eval` and
      `test`. Passing more values than the tuple has slots fails (the
      source's copy throws and the advice swallows it): nothing is
      output. */
  method Advise(a: Advice, values: seq<Value>, bags: seq<seq<seq<Value>>>,
                eval: (string, seq<Value>) -> Value, test: (string, seq<Value>) -> bool)
    returns (outputs: Option<seq<seq<Value>>>)
    requires |values| <= |a.tupleNames| ==> Ready(a, Initial(values, |a.tupleNames|), bags)
    ensures |values| > |a.tupleNames| ==> outputs == None
    ensures |values| <= |a.tupleNames| ==>
              outputs == Some(Run(a, Initial(values, |a.tupleNames|), bags, eval, test, Prod(Sizes(bags))).1)
  {
    var n := |a.tupleNames|;
    if |values| > n {
      return None;
    }
    var inputcount := CombinationCount(bags);
    ghost var t0 := Initial(values, n);
    var tuple := StartTuple(values, n);
    var outs: seq<seq<Value>> := [];
    for i := 0 to inputcount
      invariant (tuple[..], outs) == Run(a, t0, bags, eval, test, i)
    {
      RunSnoc(a, t0, bags, eval, test, i);
      var output := Combine(a, tuple, bags, eval, test, i);
      outs := outs + Emitted(output);
    }
    outputs := Some(outs);
  }

  /** The tuple an invocation starts from, as a fresh array. */
  method StartTuple(values: seq<Value>, n: nat) returns (tuple: array<Value>)
    requires |values| <= n
    ensures fresh(tuple) && tuple[..] == Initial(values, n)
  {
    tuple := new Value[n](_ => Null);
    CopyInto(tuple, 0, values);
  }

  /** One more combination: the run so far leaves a tuple the advice fits,
      and the next step extends it. */
  lemma RunSnoc(a: Advice, t0: seq<Value>, bags: seq<seq<seq<Value>>>,
                eval: (string, seq<Value>) -> Value, test: (string, seq<Value>) -> bool, n: nat)
    requires Ready(a, t0, bags) && AllPositive(Sizes(bags))
    ensures AllPositive(Sizes(bags)) && Ready(a, Run(a, t0, bags, eval, test, n).0, bags)
    ensures var prev := Run(a, t0, bags, eval, test, n);
            var s := Step(a, prev.0, bags, eval, test, n);
            Run(a, t0, bags, eval, test, n + 1) == (s.0, prev.1 + Emitted(s.1))
  {
    ReadyLength(a, t0, Run(a, t0, bags, eval, test, n).0, bags);
  }
}

/** Splitting of the qualified, aggregated and filtered variable names that
    appear in Pivot Tracing queries (`tp.var`, `SUM(var)`, `FIRST(Q1)`). */
module QueryUtils {
  import opened Common
  import opened AdviceProtos

  /** `split`: a qualified name cut at its first '.', or nothing when there is
      no '.' or either side would be empty. */
  function Split(varName: string): (r: Option<(string, string)>)
    ensures r.Some? ==>
      && r.value.0 + "." + r.value.1 == varName
      && r.value.0 != [] && r.value.1 != []
      && '.' !in r.value.0
    ensures r.None? <==>
      || '.' !in varName
      || varName[0] == '.'
      || (varName[|varName| - 1] == '.' && '.' !in varName[..|varName| - 1])
  {
    var i := IndexOf(varName, '.');
    if i < 0 then None
    else
      var left, right := varName[..i], varName[i + 1..];
      assert varName == left + "." + right;
      if left == [] || right == [] then None
      else Some((left, right))
  }

  /** Joining two non-empty names, the first without a '.', is undone by
      `Split`. */
  lemma SplitQualified(left: string, right: string)
    requires left != [] && right != [] && '.' !in left
    ensures Split(left + "." + right) == Some((left, right))
  {
    var s := left + "." + right;
    IndexOfAt(s, '.', |left|);
    assert s[..|left|] == left && s[|left| + 1..] == right;
  }

  /** `validVarName`: the name contains no '.'. */
  predicate ValidVarName(varName: string)
  {
    '.' !in varName
  }

  /** A valid variable name is never mistaken for a qualified one. */
  lemma ValidNamesDoNotSplit(varName: string)
    requires ValidVarName(varName)
    ensures Split(varName).None?
  {
  }

  /** `validateVarName`: an error carrying the offending name when it is not
      valid. */
  function ValidateVarName(varName: string): (r: Result<(), string>)
    ensures r.Ok? <==> '.' !in varName
    ensures r.Err? ==> r.error == "Invalid var " + varName
  {
    if ValidVarName(varName) then Ok(()) else Err("Invalid var " + varName)
  }

  /** The part of `varName` between its first '(' and its last character, and
      the upper-cased text before that '(', when Java's `substring` would not
      throw. */
  function Parenthesised(varName: string): (r: Option<(string, string)>)
    ensures r.Some? ==>
      exists i :: 0 <= i < |varName| - 1 && varName[i] == '(' && '(' !in varName[..i]
        && r.value == (ToUpper(varName[..i]), varName[i + 1..|varName| - 1])
    ensures r.None? <==> ('(' !in varName || (varName[|varName| - 1] == '(' && '(' !in varName[..|varName| - 1]))
  {
    var i := IndexOf(varName, '(');
    if i < 0 || i + 1 > |varName| - 1 then None
    else Some((ToUpper(varName[..i]), varName[i + 1..|varName| - 1]))
  }

  /** `splitAgg`: "count" in any letter case is a bare COUNT; otherwise
      `NAME(var)` where NAME, upper-cased, names an aggregation. */
  function SplitAgg(varName: string): (r: Option<(Agg, string)>)
    ensures ToUpper(varName) == "COUNT" ==> r == Some((COUNT, ""))
    ensures ToUpper(varName) != "COUNT" ==>
      (r.Some? <==> Parenthesised(varName).Some? && AggValueOf(Parenthesised(varName).value.0).Some?)
    ensures ToUpper(varName) != "COUNT" && r.Some? ==>
      AggName(r.value.0) == Parenthesised(varName).value.0 && r.value.1 == Parenthesised(varName).value.1
  {
    if ToUpper(varName) == "COUNT" then Some((COUNT, ""))
    else match Parenthesised(varName)
      case None => None
      case Some((prefix, inner)) =>
        match AggValueOf(prefix)
        case None => None
        case Some(a) => Some((a, inner))
  }

  /** An aggregation written `name(var)`, with the name in any letter case,
      is read back by `SplitAgg`. */
  lemma SplitAggWritten(name: string, a: Agg, v: string)
    requires ToUpper(name) == AggName(a)
    ensures SplitAgg(name + "(" + v + ")") == Some((a, v))
  {
    WrittenParts(name, a, v);
  }

  /** `name(v)` is not "count", and its parts are the aggregation's name
      and `v`. */
  lemma WrittenParts(name: string, a: Agg, v: string)
    requires ToUpper(name) == AggName(a)
    ensures ToUpper(name + "(" + v + ")") != "COUNT"
    ensures Parenthesised(name + "(" + v + ")") == Some((AggName(a), v))
  {
    AggNameLetters(a);
    NoOpenParen(name, AggName(a));
    ParenthesisedWritten(name, v);
    NotCount(name, v);
  }

  /** An aggregation's name is upper-case letters. */
  lemma AggNameLetters(a: Agg)
    ensures forall k :: 0 <= k < |AggName(a)| ==> 'A' <= AggName(a)[k] <= 'Z'
  {
  }

  /** A name whose upper-case form has no '(' has none itself. */
  lemma NoOpenParen(name: string, upper: string)
    requires ToUpper(name) == upper && forall k :: 0 <= k < |upper| ==> 'A' <= upper[k] <= 'Z'
    ensures forall k :: 0 <= k < |name| ==> name[k] != '('
  {
    forall k | 0 <= k < |name|
      ensures name[k] != '('
    {
      assert ToUpper(name)[k] == UpperChar(name[k]);
    }
  }

  lemma NotCount(name: string, v: string)
    ensures ToUpper(name + "(" + v + ")") != "COUNT"
  {
    var s := name + "(" + v + ")";
    assert ToUpper(s)[|name|] == '(';
  }

  lemma ParenthesisedWritten(name: string, v: string)
    requires forall k :: 0 <= k < |name| ==> name[k] != '('
    ensures Parenthesised(name + "(" + v + ")") == Some((ToUpper(name), v))
  {
    var s := name + "(" + v + ")";
    OpenParenAt(name, v);
    assert s[..|name|] == name;
    assert s[|name| + 1..|s| - 1] == v;
  }

  lemma OpenParenAt(name: string, v: string)
    requires forall k :: 0 <= k < |name| ==> name[k] != '('
    ensures IndexOf(name + "(" + v + ")", '(') == |name|
  {
    var s := name + "(" + v + ")";
    forall k | 0 <= k < |name|
      ensures s[k] != '('
    {
      assert s[k] == name[k];
    }
    IndexOfAt(s, '(', |name|);
  }

  /** `splitFilter`: `NAME(query)` where NAME, upper-cased, names a filter. */
  function SplitFilter(varName: string): (r: Option<(Filter, string)>)
    ensures r.Some? <==> Parenthesised(varName).Some? && FilterValueOf(Parenthesised(varName).value.0).Some?
    ensures r.Some? ==>
      FilterName(r.value.0) == Parenthesised(varName).value.0 && r.value.1 == Parenthesised(varName).value.1
  {
    match Parenthesised(varName)
    case None => None
    case Some((prefix, inner)) =>
      match FilterValueOf(prefix)
      case None => None
      case Some(f) => Some((f, inner))
  }

  /** `combinerFor`: how partial results of an aggregation are combined. MIN
      and MAX combine with themselves; SUM and COUNT partial results are
      summed. */
  function CombinerFor(a: Agg): (r: Agg)
    ensures r != COUNT
    ensures r == MIN <==> a == MIN
    ensures r == MAX <==> a == MAX
  {
    match a
    case MIN => MIN
    case MAX => MAX
    case _ => SUM
  }

  /** Combining is closed: the combiner of a combiner is itself. */
  lemma CombinerIdempotent(a: Agg)
    ensures CombinerFor(CombinerFor(a)) == CombinerFor(a)
  {
  }
}

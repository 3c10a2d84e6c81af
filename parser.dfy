/** The Pivot Tracing query parser: a query is text, one clause per line,
    starting with a From line and ending with a Select line or a GroupBy line
    followed by its Select line. Lines are cut into whitespace-separated
    tokens and keywords are matched at fixed token positions, ignoring case.
    The parse yields the sequence of clauses the query builder would be
    given; the builder's own variable checks are not part of this model. */
module QueryParser {
  import opened Common
  import opened AdviceProtos
  import opened TextSplit
  import opened QueryUtils

  const FROM: string := "from"
  const IN: string := "in"
  const JOIN: string := "join"
  const ON: string := "on"
  const HB: string := "->"
  const WHERE: string := "where"
  const LET: string := "let"
  const GROUPBY: string := "groupby"
  const SELECT: string := "select"
  const COUNT: string := "COUNT"

  // ---------------------------------------------------------------------
  // The parsed query
  // ---------------------------------------------------------------------

  /** What a join reaches: a tracepoint, or a query registered earlier. */
  datatype Target = TracepointNamed(name: string) | QueryNamed(name: string)

  /** `Join x In X On x -> onto`, with X optionally wrapped in a filter. A
      join onto an earlier join's variable may have no target: the source
      then records only the variable. */
  datatype Join = Join(x: string, filter: Option<Filter>, target: Option<Target>, onto: string)

  datatype Clause =
    | JoinClause(join: Join)
    | WhereClause(expression: string, vars: seq<string>)
    | LetClause(name: string, expression: string, vars: seq<string>)

  datatype Aggregation = CountAll | Aggregate(how: Agg, v: string)

  /** A query still open to more clauses, or one ended by Select or by
      GroupBy and its Select line. */
  datatype Ending = Open | Selected(keys: seq<string>) | Grouped(keys: seq<string>, aggregations: seq<Aggregation>)

  /** `From [name In] tracepoint` followed by the clauses, in order. */
  datatype Query = Query(name: Option<string>, tracepoint: string, clauses: seq<Clause>, ending: Ending)

  datatype ParseError =
    | Unexpected(line: string, found: string, expected: string)
    | Unparsable(line: string)
    | MultipleFrom
    | UnknownTracepoint(name: string)
    | InvalidVar(name: string)
    | UnnamedSource(line: string)
    | WrongJoinSide(found: string, expected: string)
    | CannotFilter(name: string)
    | UnknownQuery(name: string)
    | UnknownJoinTarget(name: string)
    | NotPartial(name: string)
    | KeyMismatch(groupKey: string, selectKey: string)
    | NoAggregation(line: string)
    | BadAggregation(token: string)
    | MissingToken(line: string)
    | MissingLine

  // ---------------------------------------------------------------------
  // Tokens
  // ---------------------------------------------------------------------

  /** A character of the regular-expression class `\s`. */
  predicate IsSpace(c: char)
  {
    c == ' ' || c == '\t' || c == '\n' || c == '\r' || c as int == 11 || c as int == 12
  }

  predicate SpaceFree(s: string)
  {
    forall k :: 0 <= k < |s| ==> !IsSpace(s[k])
  }

  /** `String.trim`: leading characters up to U+0020 removed. */
  function TrimStart(s: string): (r: string)
    ensures |r| <= |s| && r == s[|s| - |r|..]
    ensures forall k :: 0 <= k < |s| - |r| ==> s[k] <= ' '
    ensures r != [] ==> r[0] > ' '
  {
    if s != [] && s[0] <= ' ' then TrimStart(s[1..]) else s
  }

  /** `String.trim`: trailing characters up to U+0020 removed. */
  function TrimEnd(s: string): (r: string)
    ensures |r| <= |s| && r == s[..|r|]
    ensures forall k :: |r| <= k < |s| ==> s[k] <= ' '
    ensures r != [] ==> r[|r| - 1] > ' '
  {
    if s != [] && s[|s| - 1] <= ' ' then TrimEnd(s[..|s| - 1]) else s
  }

  function Trim(s: string): (r: string)
    ensures r != [] ==> r[0] > ' ' && r[|r| - 1] > ' '
  {
    TrimEnd(TrimStart(s))
  }

  /** The longest prefix without whitespace. */
  function Word(s: string): (r: string)
    ensures |r| <= |s| && r == s[..|r|]
    ensures SpaceFree(r)
    ensures |r| < |s| ==> IsSpace(s[|r|])
  {
    if s == [] || IsSpace(s[0]) then [] else [s[0]] + Word(s[1..])
  }

  /** The maximal runs of non-whitespace characters, in order. */
  function Words(s: string): (r: seq<string>)
    ensures forall k :: 0 <= k < |r| ==> r[k] != [] && SpaceFree(r[k])
    decreases |s|
  {
    if s == [] then []
    else if IsSpace(s[0]) then Words(s[1..])
    else
      var w := Word(s);
      [w] + Words(s[|w|..])
  }

  /** The text without its whitespace. */
  function NonSpace(s: string): (r: string)
    ensures SpaceFree(r)
  {
    if s == [] then [] else (if IsSpace(s[0]) then [] else [s[0]]) + NonSpace(s[1..])
  }

  function Concat(ws: seq<string>): string
  {
    if ws == [] then [] else ws[0] + Concat(ws[1..])
  }

  lemma {:induction false} NonSpaceOfWord(s: string)
    ensures NonSpace(s) == Word(s) + NonSpace(s[|Word(s)|..])
    decreases |s|
  {
    if s != [] && !IsSpace(s[0]) {
      var t := s[1..];
      NonSpaceOfWord(t);
      assert Word(s) == [s[0]] + Word(t);
      assert NonSpace(s) == [s[0]] + NonSpace(t);
      assert t[|Word(t)|..] == s[|Word(s)|..];
      assert [s[0]] + (Word(t) + NonSpace(t[|Word(t)|..])) == ([s[0]] + Word(t)) + NonSpace(t[|Word(t)|..]);
    } else {
      assert Word(s) == [];
      assert s[|Word(s)|..] == s;
    }
  }

  /** The words hold exactly the text's non-whitespace characters, in order:
      splitting loses only whitespace. */
  lemma {:induction false} WordsText(s: string)
    ensures Concat(Words(s)) == NonSpace(s)
    decreases |s|
  {
    if s != [] {
      if IsSpace(s[0]) {
        WordsText(s[1..]);
      } else {
        var w := Word(s);
        WordsText(s[|w|..]);
        NonSpaceOfWord(s);
      }
    }
  }

  /** `s.split("\\s+")`: the text cut at runs of whitespace. Without any
      whitespace the text is the one token; otherwise a leading run yields a
      leading empty token and trailing empty tokens are dropped, so text of
      whitespace alone yields none. */
  function SplitSpaces(s: string): seq<string>
  {
    if SpaceFree(s) then [s]
    else
      var ws := Words(s);
      if ws == [] then [] else (if s != [] && IsSpace(s[0]) then [""] else []) + ws
  }

  /** Text that starts with a non-whitespace character splits into its
      words. */
  lemma SplitSpacesWords(s: string)
    requires s != [] && !IsSpace(s[0])
    ensures SplitSpaces(s) == Words(s)
  {
    if SpaceFree(s) {
      assert Word(s) == s;
      assert Words(s) == [s] + Words(s[|s|..]);
    }
  }

  /** `tokens`: the trimmed line split at whitespace. */
  function Tokens(line: string): (r: seq<string>)
    ensures |r| >= 1
  {
    TokensShape(line);
    SplitSpaces(Trim(line))
  }

  /** A blank line is the one empty token; any other line is its words,
      none empty and none holding whitespace. */
  lemma TokensShape(line: string)
    ensures Trim(line) == [] ==> SplitSpaces(Trim(line)) == [""]
    ensures Trim(line) != [] ==> SplitSpaces(Trim(line)) == Words(Trim(line)) && Words(Trim(line)) != []
  {
    var t := Trim(line);
    if t != [] {
      assert !IsSpace(t[0]);
      SplitSpacesWords(t);
      assert Words(t) == [Word(t)] + Words(t[|Word(t)|..]);
    }
  }

  /** The text with every ',' removed. */
  function Uncomma(s: string): (r: string)
    ensures ',' !in r && |r| <= |s|
  {
    if s == [] then [] else (if s[0] == ',' then [] else [s[0]]) + Uncomma(s[1..])
  }

  /** Removing commas keeps text without commas as it is. */
  lemma {:induction false} UncommaKeeps(s: string)
    ensures ',' !in s <==> Uncomma(s) == s
  {
    if s != [] {
      UncommaKeeps(s[1..]);
      if s[0] == ',' {
        assert |Uncomma(s)| <= |s[1..]| < |s|;
      }
    }
  }

  /** `subtokens`: the tokens from `startAt` on, commas stripped. */
  function Subtokens(tokens: seq<string>, startAt: nat): (r: seq<string>)
    requires startAt <= |tokens|
    ensures |r| == |tokens| - startAt
    ensures forall i :: 0 <= i < |r| ==> ',' !in r[i]
  {
    var r := seq(|tokens| - startAt, i requires 0 <= i < |tokens| - startAt => Uncomma(tokens[startAt + i]));
    assert forall i :: 0 <= i < |r| ==> r[i] == Uncomma(tokens[startAt + i]);
    r
  }

  /** `checkToken`: the token, lower-cased, is the keyword. */
  function CheckToken(line: string, token: string, expected: string): Result<(), ParseError>
  {
    if ToLower(token) == expected then Ok(()) else Err(Unexpected(line, token, expected))
  }

  lemma LowerOfUpper(s: string)
    ensures ToLower(ToUpper(s)) == ToLower(s)
  {
    assert forall i :: 0 <= i < |s| ==> LowerChar(UpperChar(s[i])) == LowerChar(s[i]);
  }

  /** Keywords are matched ignoring case: a token passes exactly when it
      spells the keyword in any mix of cases, and upper-casing it changes
      nothing. */
  lemma KeywordAnyCase(line: string, token: string, keyword: string)
    requires ToLower(keyword) == keyword
    ensures CheckToken(line, token, keyword).Ok? <==> ToLower(token) == keyword
    ensures CheckToken(line, ToUpper(token), keyword).Ok? <==> CheckToken(line, token, keyword).Ok?
    ensures CheckToken(line, keyword, keyword).Ok? && CheckToken(line, ToUpper(keyword), keyword).Ok?
  {
    LowerOfUpper(token);
    LowerOfUpper(keyword);
  }

  /** The token at position `i`, when the line has one (indexing past the
      end throws in the source). */
  function TokenAt(line: string, splits: seq<string>, i: nat): (r: Result<string, ParseError>)
    ensures r.Ok? <==> i < |splits|
    ensures r.Ok? ==> r.value == splits[i]
  {
    if i < |splits| then Ok(splits[i]) else Err(MissingToken(line))
  }

  // ---------------------------------------------------------------------
  // One line at a time
  // ---------------------------------------------------------------------

  /** `parseFrom`: `From tracepoint` or `From x In tracepoint`. */
  function ParseFrom(line: string, tracepoints: set<string>): Result<Query, ParseError>
  {
    var splits := Tokens(line);
    var _ :- CheckToken(line, splits[0], FROM);
    if |splits| == 2 then
      if splits[1] !in tracepoints then Err(UnknownTracepoint(splits[1]))
      else Ok(Query(None, splits[1], [], Open))
    else if |splits| == 4 then
      var _ :- CheckToken(line, splits[2], IN);
      if splits[3] !in tracepoints then Err(UnknownTracepoint(splits[3]))
      else if !ValidVarName(splits[1]) then Err(InvalidVar(splits[1]))
      else Ok(Query(Some(splits[1]), splits[3], [], Open))
    else Err(Unparsable(line))
  }

  /** A From line parses exactly when it has two tokens naming a known
      tracepoint, or four tokens `From x In tracepoint` with a valid `x`; the
      query starts open with no clauses. */
  lemma FromLine(line: string, tracepoints: set<string>)
    ensures var t := Tokens(line);
      ParseFrom(line, tracepoints).Ok? <==>
        && ToLower(t[0]) == FROM
        && ((|t| == 2 && t[1] in tracepoints)
            || (|t| == 4 && ToLower(t[2]) == IN && t[3] in tracepoints && '.' !in t[1]))
    ensures var t := Tokens(line);
      |t| != 2 && |t| != 4 ==> ParseFrom(line, tracepoints).Err?
    ensures var r := ParseFrom(line, tracepoints);
      r.Ok? ==> r.value.clauses == [] && r.value.ending == Open && r.value.tracepoint in tracepoints
  {
  }

  /** The variables joined directly onto the query's own variable: the
      keys of its happened-before map. */
  function JoinedVars(q: Query): set<string>
  {
    set c | c in q.clauses && c.JoinClause? && q.name == Some(c.join.onto) :: c.join.x
  }

  function AddClause(q: Query, c: Clause): (r: Query)
    ensures r.clauses == q.clauses + [c]
    ensures r.name == q.name && r.tracepoint == q.tracepoint && r.ending == q.ending
  {
    q.(clauses := q.clauses + [c])
  }

  /** Only "->" lower-cases to "->". */
  lemma LowerArrow(s: string)
    ensures ToLower(s) == HB <==> s == HB
  {
    if ToLower(s) == HB {
      assert |s| == 2;
      assert LowerChar(s[0]) == '-' && LowerChar(s[1]) == '>';
    }
  }

  /** The keywords of a join line, `Join _ In _ On _ ->`, checked in order;
      the line's tokens when all are in place. */
  function JoinKeywords(line: string): (r: Result<seq<string>, ParseError>)
    ensures var t := Tokens(line);
      r.Ok? <==> |t| >= 7 && ToLower(t[0]) == JOIN && ToLower(t[2]) == IN && ToLower(t[4]) == ON && t[6] == HB
    ensures r.Ok? ==> r.value == Tokens(line)
  {
    var splits := Tokens(line);
    LowerArrow(if |splits| > 6 then splits[6] else "");
    var _ :- CheckToken(line, splits[0], JOIN);
    var t2 :- TokenAt(line, splits, 2);
    var _ :- CheckToken(line, t2, IN);
    var t4 :- TokenAt(line, splits, 4);
    var _ :- CheckToken(line, t4, ON);
    var t6 :- TokenAt(line, splits, 6);
    var _ :- CheckToken(line, t6, HB);
    Ok(splits)
  }

  /** What `X` or `FILTER(X)` reaches: the filter, the name, the tracepoint
      or registered query of that name (a tracepoint first), and whether a
      filter is applied to a query that is no longer open. */
  datatype Reached = Reached(filter: Option<Filter>, name: string, target: Option<Target>, unfilterable: bool)

  function Reach(token: string, tracepoints: set<string>, queries: map<string, Query>): (r: Reached)
    ensures r.target.Some? <==> r.name in tracepoints || r.name in queries
    ensures r.unfilterable ==> r.filter.Some? && r.target == Some(QueryNamed(r.name))
    ensures r.target == Some(QueryNamed(r.name)) ==> r.name in queries && r.name !in tracepoints
  {
    var filtered := SplitFilter(token);
    var X := if filtered.Some? then filtered.value.1 else token;
    var filter := if filtered.Some? then Some(filtered.value.0) else None;
    var target := if X in tracepoints then Some(TracepointNamed(X)) else if X in queries then Some(QueryNamed(X)) else None;
    Reached(filter, X, target, X !in tracepoints && X in queries && filter.Some? && !queries[X].ending.Open?)
  }

  /** `parseHappenedBefore`: `Join x In X On x -> y`, where X may be
      `FILTER(X)`, names a tracepoint or an earlier query, and y is the
      query's own variable or one joined onto it before. */
  function ParseJoin(q: Query, line: string, tracepoints: set<string>, queries: map<string, Query>): Result<Join, ParseError>
  {
    var splits :- JoinKeywords(line);
    if q.name.None? then Err(UnnamedSource(line))
    else if splits[5] != splits[1] then Err(WrongJoinSide(splits[5], splits[1]))
    else
      var x := splits[1];
      var reached := Reach(splits[3], tracepoints, queries);
      var jointo :- TokenAt(line, splits, 7);
      if jointo == q.name.value then
        if reached.unfilterable then Err(CannotFilter(reached.name))
        else if reached.target.None? then Err(UnknownQuery(reached.name))
        else Ok(Join(x, reached.filter, reached.target, jointo))
      else if jointo in JoinedVars(q) then
        if reached.unfilterable then Err(CannotFilter(reached.name))
        else if reached.target == Some(QueryNamed(reached.name)) && !queries[reached.name].ending.Open? then
          Err(NotPartial(reached.name))
        else Ok(Join(x, reached.filter, reached.target, jointo))
      else Err(UnknownJoinTarget(jointo))
  }

  /** A join line parses only with the keywords in place, on a named query,
      starting from the variable it introduces, and onto the query's own
      variable (then to a known target) or onto one joined before. */
  lemma JoinLine(q: Query, line: string, tracepoints: set<string>, queries: map<string, Query>)
    requires ParseJoin(q, line, tracepoints, queries).Ok?
    ensures var t := Tokens(line);
      && |t| >= 8
      && ToLower(t[0]) == JOIN && ToLower(t[2]) == IN && ToLower(t[4]) == ON && t[6] == HB
      && q.name.Some? && t[5] == t[1]
      && (t[7] == q.name.value || t[7] in JoinedVars(q))
  {
    var t := Tokens(line);
    assert JoinKeywords(line) == Ok(t);
    assert TokenAt(line, t, 7).Ok?;
  }

  /** The join a successful `ParseJoin` builds: the variable, the filter and
      target reached from the third token, and the variable joined onto; a
      join onto the query's own variable has a known target. */
  lemma JoinBuilt(q: Query, line: string, tracepoints: set<string>, queries: map<string, Query>)
    requires ParseJoin(q, line, tracepoints, queries).Ok?
    ensures var t := Tokens(line);
      |t| >= 8 &&
      var reached := Reach(t[3], tracepoints, queries);
      && ParseJoin(q, line, tracepoints, queries).value == Join(t[1], reached.filter, reached.target, t[7])
      && (t[7] == q.name.value ==> reached.target.Some?)
      && (t[7] != q.name.value && reached.target == Some(QueryNamed(reached.name)) ==>
            queries[reached.name].ending.Open?)
  {
    JoinLine(q, line, tracepoints, queries);
    var t := Tokens(line);
    assert JoinKeywords(line) == Ok(t);
    assert TokenAt(line, t, 7) == Ok(t[7]);
    var reached := Reach(t[3], tracepoints, queries);
    if t[7] != q.name.value && reached.target == Some(QueryNamed(reached.name)) {
      assert !reached.unfilterable;
    }
  }

  /** A join onto an earlier joined variable from a registered query that a
      Select or GroupBy has ended, without a filter, fails: the query is
      not a partial query, so the cast to one throws. */
  lemma JoinOntoEndedQuery(q: Query, line: string, tracepoints: set<string>, queries: map<string, Query>)
    requires var t := Tokens(line);
      && |t| >= 8 && ToLower(t[0]) == JOIN && ToLower(t[2]) == IN && ToLower(t[4]) == ON && t[6] == HB
      && q.name.Some? && t[5] == t[1] && t[7] != q.name.value && t[7] in JoinedVars(q)
      && SplitFilter(t[3]).None? && t[3] !in tracepoints && t[3] in queries && !queries[t[3]].ending.Open?
    ensures ParseJoin(q, line, tracepoints, queries) == Err(NotPartial(Tokens(line)[3]))
  {
    var t := Tokens(line);
    assert JoinKeywords(line) == Ok(t);
    assert TokenAt(line, t, 7) == Ok(t[7]);
  }

  /** A join line whose variable is not the one it starts from fails. */
  lemma JoinWrongSide(q: Query, line: string, tracepoints: set<string>, queries: map<string, Query>)
    requires var t := Tokens(line);
      && |t| >= 8 && ToLower(t[0]) == JOIN && ToLower(t[2]) == IN && ToLower(t[4]) == ON && t[6] == HB
      && q.name.Some? && t[5] != t[1]
    ensures ParseJoin(q, line, tracepoints, queries) == Err(WrongJoinSide(Tokens(line)[5], Tokens(line)[1]))
  {
  }

  /** `parseWhere`: `Where expression vars…`. */
  function ParseWhere(line: string): Result<Clause, ParseError>
  {
    var splits := SplitSpaces(line);
    var first :- TokenAt(line, splits, 0);
    var _ :- CheckToken(line, first, WHERE);
    var expression :- TokenAt(line, splits, 1);
    Ok(WhereClause(expression, Subtokens(splits, 2)))
  }

  /** `parseLet`: `Let name expression vars…`. */
  function ParseLet(line: string): Result<Clause, ParseError>
  {
    var splits := SplitSpaces(line);
    var first :- TokenAt(line, splits, 0);
    var _ :- CheckToken(line, first, LET);
    var name :- TokenAt(line, splits, 1);
    var expression :- TokenAt(line, splits, 2);
    Ok(LetClause(name, expression, Subtokens(splits, 3)))
  }

  /** A line `keyword tokens…`: the tokens after the keyword, commas
      stripped. */
  function Keyed(line: string, keyword: string): (r: Result<seq<string>, ParseError>)
    ensures r.Ok? <==> |SplitSpaces(line)| >= 1 && ToLower(SplitSpaces(line)[0]) == keyword
    ensures r.Ok? ==> r.value == Subtokens(SplitSpaces(line), 1)
  {
    var splits := SplitSpaces(line);
    var first :- TokenAt(line, splits, 0);
    var _ :- CheckToken(line, first, keyword);
    Ok(Subtokens(splits, 1))
  }

  /** `parseSelect`: `Select keys…` ends the query. It parses exactly when
      the line's first word is SELECT in any case, and the query is then
      ended by the remaining words, commas stripped, as its keys. */
  function ParseSelect(q: Query, line: string): (r: Result<Query, ParseError>)
    ensures r.Ok? <==> |SplitSpaces(line)| >= 1 && ToLower(SplitSpaces(line)[0]) == SELECT
    ensures r.Ok? ==> r.value == q.(ending := Selected(Subtokens(SplitSpaces(line), 1)))
  {
    var keys :- Keyed(line, SELECT);
    Ok(q.(ending := Selected(keys)))
  }

  /** The GroupBy keys, from position `i` on, are repeated by the Select
      line; a Select line too short throws. */
  function MatchKeys(line: string, keys: seq<string>, selected: seq<string>, i: nat): Result<(), ParseError>
    decreases |keys| - i
  {
    if i >= |keys| then Ok(())
    else if i >= |selected| then Err(MissingToken(line))
    else if keys[i] != selected[i] then Err(KeyMismatch(keys[i], selected[i]))
    else MatchKeys(line, keys, selected, i + 1)
  }

  /** Select key `k` repeats GroupBy key `k`. */
  predicate Repeated(keys: seq<string>, selected: seq<string>, k: int)
  {
    0 <= k < |keys| && k < |selected| && selected[k] == keys[k]
  }

  lemma {:induction false} MatchKeysOk(line: string, keys: seq<string>, selected: seq<string>, i: nat)
    requires i <= |keys|
    ensures MatchKeys(line, keys, selected, i).Ok? <==> forall k :: i <= k < |keys| ==> Repeated(keys, selected, k)
    decreases |keys| - i
  {
    if i < |keys| {
      if i < |selected| && keys[i] == selected[i] {
        MatchKeysOk(line, keys, selected, i + 1);
        assert Repeated(keys, selected, i);
      } else {
        assert !Repeated(keys, selected, i);
      }
    }
  }

  /** The keys match exactly when the Select keys start with the GroupBy
      keys. */
  lemma KeysLead(line: string, keys: seq<string>, selected: seq<string>)
    ensures MatchKeys(line, keys, selected, 0).Ok? <==> |keys| <= |selected| && selected[..|keys|] == keys
  {
    MatchKeysOk(line, keys, selected, 0);
    if MatchKeys(line, keys, selected, 0).Ok? {
      if |keys| > 0 {
        assert Repeated(keys, selected, |keys| - 1);
      }
      assert selected[..|keys|] == keys by {
        forall k | 0 <= k < |keys| ensures selected[..|keys|][k] == keys[k] {
          assert Repeated(keys, selected, k);
        }
      }
    }
  }

  /** One aggregation of a GroupBy's Select line: `COUNT` in any case, or
      `AGG(var)`. */
  function AggregationOf(token: string): (r: Result<Aggregation, ParseError>)
  {
    if ToUpper(token) == COUNT then Ok(CountAll)
    else match SplitAgg(token)
      case None => Err(BadAggregation(token))
      case Some((how, v)) => Ok(Aggregate(how, v))
  }

  /** The aggregations in order; the first that does not parse fails all. */
  function Aggregations(tokens: seq<string>): Result<seq<Aggregation>, ParseError>
  {
    if tokens == [] then Ok([])
    else
      var a :- AggregationOf(tokens[0]);
      var rest :- Aggregations(tokens[1..]);
      Ok([a] + rest)
  }

  lemma {:induction false} AggregationsOk(tokens: seq<string>)
    ensures Aggregations(tokens).Ok? <==> forall k :: 0 <= k < |tokens| ==> AggregationOf(tokens[k]).Ok?
    ensures Aggregations(tokens).Ok? ==>
      && |Aggregations(tokens).value| == |tokens|
      && forall k :: 0 <= k < |tokens| ==> Aggregations(tokens).value[k] == AggregationOf(tokens[k]).value
  {
    if tokens != [] {
      AggregationsOk(tokens[1..]);
      assert forall k :: 1 <= k < |tokens| ==> tokens[1..][k - 1] == tokens[k];
    }
  }

  /** The aggregations of a GroupBy: what follows the repeated keys on the
      Select line, of which there must be one at least. */
  function Grouping(line: string, keys: seq<string>, selected: seq<string>): Result<seq<Aggregation>, ParseError>
  {
    var _ :- MatchKeys(line, keys, selected, 0);
    KeysLead(line, keys, selected);
    if |selected| == |keys| then Err(NoAggregation(line))
    else Aggregations(selected[|keys|..])
  }

  /** A grouping parses exactly when the Select keys start with the
      GroupBy keys, at least one aggregation follows and every aggregation
      parses; there is then one aggregation per remaining Select key. */
  lemma GroupingOk(line: string, keys: seq<string>, selected: seq<string>)
    ensures Grouping(line, keys, selected).Ok? <==>
      && |keys| < |selected| && selected[..|keys|] == keys
      && forall k :: |keys| <= k < |selected| ==> AggregationOf(selected[k]).Ok?
    ensures Grouping(line, keys, selected).Ok? ==> |Grouping(line, keys, selected).value| == |selected| - |keys|
  {
    KeysLead(line, keys, selected);
    if |keys| < |selected| {
      var rest := selected[|keys|..];
      AggregationsOk(rest);
      assert forall k :: |keys| <= k < |selected| ==> selected[k] == rest[k - |keys|];
    }
  }

  /** `parseGroupBy`: `GroupBy keys…` and the next line, `Select keys…
      aggregations…`. */
  function ParseGroupBy(q: Query, groupByLine: string, selectLine: string): (r: Result<Query, ParseError>)
    ensures r.Ok? ==> r.value == q.(ending := r.value.ending) && r.value.ending.Grouped?
  {
    var keys :- Keyed(groupByLine, GROUPBY);
    var selected :- Keyed(selectLine, SELECT);
    var aggregations :- Grouping(selectLine, keys, selected);
    Ok(q.(ending := Grouped(keys, aggregations)))
  }

  /** A GroupBy parses exactly when both keywords are in place and the
      grouping parses; the query then ends grouped by the GroupBy keys with
      at least one aggregation. */
  lemma GroupByLines(q: Query, groupByLine: string, selectLine: string)
    ensures ParseGroupBy(q, groupByLine, selectLine).Ok? <==>
      && Keyed(groupByLine, GROUPBY).Ok? && Keyed(selectLine, SELECT).Ok?
      && Grouping(selectLine, Keyed(groupByLine, GROUPBY).value, Keyed(selectLine, SELECT).value).Ok?
    ensures var r := ParseGroupBy(q, groupByLine, selectLine);
      r.Ok? ==> (r.value.ending.keys == Keyed(groupByLine, GROUPBY).value
                 && |r.value.ending.aggregations| > 0 && r.value.clauses == q.clauses)
  {
    if Keyed(groupByLine, GROUPBY).Ok? && Keyed(selectLine, SELECT).Ok? {
      GroupingOk(selectLine, Keyed(groupByLine, GROUPBY).value, Keyed(selectLine, SELECT).value);
    }
  }

  // ---------------------------------------------------------------------
  // Whole queries
  // ---------------------------------------------------------------------

  /** `queryString.split("\n")`: the lines, trailing empty lines dropped
      when there is any line break. */
  function Lines(s: string): (r: seq<string>)
    ensures '\n' !in s ==> r == [s]
  {
    if '\n' !in s then [s] else DropTrailingEmpty(SplitOn(s, "\n"))
  }

  /** The keyword a line starts with, lower-cased. */
  function Kind(line: string): string
  {
    ToLower(Tokens(line)[0])
  }

  /** A line that neither ends the query nor is a From line: join, where
      and let lines extend the query, and any other line is passed over. */
  function Extend(q: Query, line: string, tracepoints: set<string>, queries: map<string, Query>): Result<Query, ParseError>
  {
    var kind := Kind(line);
    if kind == JOIN then
      var j :- ParseJoin(q, line, tracepoints, queries);
      Ok(AddClause(q, JoinClause(j)))
    else if kind == WHERE then
      var c :- ParseWhere(line);
      Ok(AddClause(q, c))
    else if kind == LET then
      var c :- ParseLet(line);
      Ok(AddClause(q, c))
    else Ok(q)
  }

  /** The lines after the From line, from `i` on: join, where and let lines
      extend the query, a Select or GroupBy line ends it, a second From
      line is an error, and any other line is passed over. */
  function ParseLines(q: Query, lines: seq<string>, i: nat, tracepoints: set<string>, queries: map<string, Query>): Result<Query, ParseError>
    decreases |lines| - i
  {
    if i >= |lines| then Ok(q)
    else
      var kind := Kind(lines[i]);
      if kind == FROM then Err(MultipleFrom)
      else if kind == SELECT then ParseSelect(q, lines[i])
      else if kind == GROUPBY then
        if i + 1 < |lines| then ParseGroupBy(q, lines[i], lines[i + 1]) else Err(MissingLine)
      else
        var q' :- Extend(q, lines[i], tracepoints, queries);
        ParseLines(q', lines, i + 1, tracepoints, queries)
  }

  /** Extending a query adds at most one clause and never ends it. */
  lemma ExtendKeepsOpen(q: Query, line: string, tracepoints: set<string>, queries: map<string, Query>)
    requires Extend(q, line, tracepoints, queries).Ok?
    ensures var r := Extend(q, line, tracepoints, queries).value;
      r.ending == q.ending && r.name == q.name && r.tracepoint == q.tracepoint
    ensures var r := Extend(q, line, tracepoints, queries).value;
      r == q || exists c :: r == AddClause(q, c)
  {
    var kind := Kind(line);
    if kind == JOIN {
      var j := ParseJoin(q, line, tracepoints, queries).value;
      assert Extend(q, line, tracepoints, queries).value == AddClause(q, JoinClause(j));
    } else if kind == WHERE {
      var c := ParseWhere(line).value;
      assert Extend(q, line, tracepoints, queries).value == AddClause(q, c);
    } else if kind == LET {
      var c := ParseLet(line).value;
      assert Extend(q, line, tracepoints, queries).value == AddClause(q, c);
    }
  }

  /** `parse`: the From line, then the rest. */
  function ParseQuery(s: string, tracepoints: set<string>, queries: map<string, Query>): Result<Query, ParseError>
  {
    var lines := Lines(s);
    if lines == [] then Err(MissingLine)
    else
      var q :- ParseFrom(lines[0], tracepoints);
      ParseLines(q, lines, 1, tracepoints, queries)
  }

  /** No line from `i` up to `k` ends the query. */
  predicate Continues(lines: seq<string>, i: nat, k: nat)
    requires k <= |lines|
  {
    forall m :: i <= m < k ==> Kind(lines[m]) != SELECT && Kind(lines[m]) != GROUPBY
  }

  /** One line of a parse that succeeds: it is no From line, and unless it
      ends the query it extends it and the rest parses too. */
  lemma ParseLinesStep(q: Query, lines: seq<string>, i: nat, tracepoints: set<string>, queries: map<string, Query>)
    requires i < |lines| && ParseLines(q, lines, i, tracepoints, queries).Ok?
    ensures Kind(lines[i]) != FROM
    ensures Kind(lines[i]) == SELECT ==> ParseLines(q, lines, i, tracepoints, queries).value.ending.Selected?
    ensures Kind(lines[i]) == GROUPBY ==> ParseLines(q, lines, i, tracepoints, queries).value.ending.Grouped?
    ensures Kind(lines[i]) != SELECT && Kind(lines[i]) != GROUPBY ==>
      && Extend(q, lines[i], tracepoints, queries).Ok?
      && ParseLines(q, lines, i, tracepoints, queries)
         == ParseLines(Extend(q, lines[i], tracepoints, queries).value, lines, i + 1, tracepoints, queries)
  {
  }

  /** A query that parses has no second From line before its ending. */
  lemma {:induction false} NoSecondFrom(q: Query, lines: seq<string>, i: nat, tracepoints: set<string>,
                                        queries: map<string, Query>, k: nat)
    requires ParseLines(q, lines, i, tracepoints, queries).Ok?
    requires i <= k < |lines| && Continues(lines, i, k)
    ensures Kind(lines[k]) != FROM
    decreases k - i
  {
    ParseLinesStep(q, lines, i, tracepoints, queries);
    if i < k {
      assert Kind(lines[i]) != SELECT && Kind(lines[i]) != GROUPBY;
      var next := Extend(q, lines[i], tracepoints, queries);
      NoSecondFrom(next.value, lines, i + 1, tracepoints, queries, k);
    }
  }

  /** Without a Select or GroupBy line the query stays open. */
  lemma {:induction false} StaysOpen(q: Query, lines: seq<string>, i: nat, tracepoints: set<string>, queries: map<string, Query>)
    requires q.ending.Open? && i <= |lines| && Continues(lines, i, |lines|)
    requires ParseLines(q, lines, i, tracepoints, queries).Ok?
    ensures ParseLines(q, lines, i, tracepoints, queries).value.ending.Open?
    decreases |lines| - i
  {
    if i < |lines| {
      ParseLinesStep(q, lines, i, tracepoints, queries);
      var next := Extend(q, lines[i], tracepoints, queries);
      ExtendKeepsOpen(q, lines[i], tracepoints, queries);
      StaysOpen(next.value, lines, i + 1, tracepoints, queries);
    }
  }

  /** The first Select or GroupBy line ends the query the way it says. */
  lemma {:induction false} EndsAt(q: Query, lines: seq<string>, i: nat, tracepoints: set<string>,
                                  queries: map<string, Query>, k: nat)
    requires i <= k < |lines| && Continues(lines, i, k)
    requires ParseLines(q, lines, i, tracepoints, queries).Ok?
    ensures Kind(lines[k]) == SELECT ==> ParseLines(q, lines, i, tracepoints, queries).value.ending.Selected?
    ensures Kind(lines[k]) == GROUPBY ==> ParseLines(q, lines, i, tracepoints, queries).value.ending.Grouped?
    decreases k - i
  {
    ParseLinesStep(q, lines, i, tracepoints, queries);
    if i < k {
      var next := Extend(q, lines[i], tracepoints, queries);
      EndsAt(next.value, lines, i + 1, tracepoints, queries, k);
    }
  }

  // ---------------------------------------------------------------------
  // The client's parser
  // ---------------------------------------------------------------------

  /** The parser and the client state it uses: the known tracepoints and
      the queries registered by name. */
  class Parser {
    var tracepoints: set<string>
    var queries: map<string, Query>

    constructor(tracepoints: set<string>)
      ensures this.tracepoints == tracepoints && queries == map[]
    {
      this.tracepoints := tracepoints;
      queries := map[];
    }

    /** `parse(queryString)`: the From line, then each line in turn until a
        Select or GroupBy line returns. */
    method ParseText(queryString: string) returns (r: Result<Query, ParseError>)
      ensures r == ParseQuery(queryString, tracepoints, queries)
    {
      var lines := Lines(queryString);
      if |lines| == 0 {
        return Err(MissingLine);
      }
      var first := ParseFrom(lines[0], tracepoints);
      if first.Err? {
        return Err(first.error);
      }
      var q := first.value;
      var i := 1;
      while i < |lines|
        invariant 1 <= i <= |lines|
        invariant ParseLines(first.value, lines, 1, tracepoints, queries) == ParseLines(q, lines, i, tracepoints, queries)
      {
        var kind := ToLower(Tokens(lines[i])[0]);
        if kind == FROM {
          return Err(MultipleFrom);
        } else if kind == JOIN {
          var next := ParseJoin(q, lines[i], tracepoints, queries);
          if next.Err? {
            return Err(next.error);
          }
          q := AddClause(q, JoinClause(next.value));
        } else if kind == WHERE {
          var next := ParseWhere(lines[i]);
          if next.Err? {
            return Err(next.error);
          }
          q := AddClause(q, next.value);
        } else if kind == LET {
          var next := ParseLet(lines[i]);
          if next.Err? {
            return Err(next.error);
          }
          q := AddClause(q, next.value);
        } else if kind == SELECT {
          return ParseSelect(q, lines[i]);
        } else if kind == GROUPBY {
          if i + 1 >= |lines| {
            return Err(MissingLine);
          }
          return ParseGroupBy(q, lines[i], lines[i + 1]);
        }
        i := i + 1;
      }
      r := Ok(q);
    }

    /** `parse(queryName, queryString)`: a query that parses is registered
        under its name, replacing any before it; a failed parse registers
        nothing. */
    method Parse(queryName: string, queryString: string) returns (r: Result<Query, ParseError>)
      modifies this
      ensures tracepoints == old(tracepoints)
      ensures r == ParseQuery(queryString, old(tracepoints), old(queries))
      ensures r.Ok? ==> queries == old(queries)[queryName := r.value]
      ensures r.Err? ==> queries == old(queries)
    {
      r := ParseText(queryString);
      if r.Ok? {
        queries := queries[queryName := r.value];
      }
    }
  }
}

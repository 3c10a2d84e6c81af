/** The X-Trace web UI's report parser and trace builder. A report is a
    block of `key: value` lines; a trace is the text of its reports separated
    by blank lines. The builder indexes the reports by operation id, links
    each report to the reports its edges name, finds the roots, and numbers
    the reports by a depth-first traversal with an explicit stack.

    Reports are identified by their position in the trace. The parent, child
    and index lists that the source keeps on each report object are kept
    here on the trace, one entry per report position. */
module XTraceReports {
  import opened Common
  import opened TextSplit

  const XTRACE_KEY: string := "x-trace"
  const EDGE_KEY: string := "edge"

  /** Ruby's `String#split` with a fixed separator: the pieces between
      separators, without the trailing empty ones. */
  function RubySplit(s: string, sep: string): seq<string>
    requires |sep| > 0
  {
    DropTrailingEmpty(SplitOn(s, sep))
  }

  /** Splitting drops everything only when every piece is empty. */
  lemma DropTrailingEmptyNone(ws: seq<string>)
    ensures DropTrailingEmpty(ws) == [] <==> forall k :: 0 <= k < |ws| ==> ws[k] == ""
  {
    var r := DropTrailingEmpty(ws);
    if r != [] {
      assert r[|r| - 1] == ws[|r| - 1];
    }
  }

  /** The pieces without the trailing empty ones are the one prefix that
      ends in a non-empty piece (or is empty) and leaves only empty pieces. */
  lemma DropTrailingEmptyUnique(ws: seq<string>, r: seq<string>)
    requires |r| <= |ws| && r == ws[..|r|]
    requires r == [] || r[|r| - 1] != ""
    requires forall k :: |r| <= k < |ws| ==> ws[k] == ""
    ensures DropTrailingEmpty(ws) == r
  {
  }

  /** A leading piece survives unless it and all after it are empty. */
  lemma DropTrailingEmptyCons(h: string, ws: seq<string>)
    ensures DropTrailingEmpty([h] + ws) == (if DropTrailingEmpty(ws) != [] then [h] + DropTrailingEmpty(ws) else DropTrailingEmpty([h]))
  {
    var r := DropTrailingEmpty(ws);
    var x := [h] + ws;
    if r != [] {
      assert ([h] + r) == x[..|r| + 1];
      DropTrailingEmptyUnique(x, [h] + r);
    } else {
      var d := DropTrailingEmpty([h]);
      assert d == x[..|d|];
      DropTrailingEmptyUnique(x, d);
    }
  }

  // ---------------------------------------------------------------------
  // One line: `key: value`
  // ---------------------------------------------------------------------

  /** The text after the last `c` in `s`, or all of `s` without one. */
  function AfterLast(s: string, c: char): (r: string)
    ensures |r| <= |s| && r == s[|s| - |r|..]
    ensures c !in r
    ensures |r| < |s| ==> s[|s| - |r| - 1] == c
  {
    if s == [] || s[|s| - 1] == c then []
    else AfterLast(s[..|s| - 1], c) + [s[|s| - 1]]
  }

  /** The match of `([^:]*): (.*)` in a line: the key is the colon-free text
      just before the first colon followed by a space, the value all that
      follows that colon and space. None when the line has no such colon. */
  function KeyValue(line: string): (r: Option<(string, string)>)
    ensures r.None? <==> forall j :: 0 <= j < |line| ==> !OccursAt(line, ": ", j)
  {
    var p := FindFrom(line, ": ", 0);
    if p < 0 then None else Some((AfterLast(line[..p], ':'), line[p + 2..]))
  }

  /** A matched line is some text ending in a colon (or nothing), the key,
      `": "` and the value, and no `": "` comes before the key's end. */
  lemma KeyValueShape(line: string)
    requires KeyValue(line).Some?
    ensures var (key, value) := KeyValue(line).value;
              var n := |line| - |value| - 2 - |key|;
              && 0 <= n && ':' !in key
              && line == line[..n] + key + ": " + value
              && (n == 0 || line[n - 1] == ':')
              && forall j :: 0 <= j < n + |key| ==> !OccursAt(line, ": ", j)
  {
    var p := FindFrom(line, ": ", 0);
    var key := AfterLast(line[..p], ':');
    var n := p - |key|;
    Quarters(line, n, p);
    assert line[n..p] == key;
    assert line[p..p + 2] == ": ";
  }

  /** A string is its pieces around two cut points and two characters. */
  lemma Quarters(s: string, n: nat, p: nat)
    requires n <= p && p + 2 <= |s|
    ensures s == s[..n] + s[n..p] + s[p..p + 2] + s[p + 2..]
  {
  }

  /** A colon-free key and any value give back that key and value. */
  lemma KeyValueOfLine(key: string, value: string)
    requires ':' !in key
    ensures KeyValue(key + ": " + value) == Some((key, value))
  {
    var line := key + ": " + value;
    assert OccursAt(line, ": ", |key|) by { assert line[|key|..|key| + 2] == ": "; }
    forall j | 0 <= j < |key| ensures !OccursAt(line, ": ", j) {
      assert line[j] == key[j];
      if j + 2 <= |line| {
        assert line[j..j + 2][0] == line[j];
      }
    }
    assert line[..|key|] == key;
    assert AfterLast(key, ':') == key;
  }

  /** The line without its leading spaces and tabs. */
  function DropBlanks(s: string): (r: string)
    ensures |r| <= |s| && r == s[|s| - |r|..]
    ensures r == [] || (r[0] != ' ' && r[0] != '\t')
  {
    if s != [] && (s[0] == ' ' || s[0] == '\t') then DropBlanks(s[1..]) else s
  }

  /** A line matching `/^[ \t]*at/`, taken to be a Java stack-trace line. */
  predicate StackTraceLine(line: string)
  {
    var t := DropBlanks(line);
    |t| >= 2 && t[..2] == "at"
  }

  /** `delete_if` of the stack-trace lines, keeping the others in order. */
  function Kept(lines: seq<string>): (r: seq<string>)
    ensures |r| <= |lines|
    ensures forall l :: l in r <==> l in lines && !StackTraceLine(l)
  {
    if lines == [] then []
    else (if StackTraceLine(lines[0]) then [] else [lines[0]]) + Kept(lines[1..])
  }

  /** The lines of a report that are parsed: all but the first (the report
      header) and the stack-trace lines. */
  function Body(text: string): seq<string>
  {
    var lines := RubySplit(text, "\n");
    Kept(if lines == [] then [] else lines[1..])
  }

  /** Whatever the first line says, only the lines after it are parsed. */
  lemma HeaderLineIgnored(header: string, rest: string)
    requires '\n' !in header
    ensures Body(header + "\n" + rest) == Kept(RubySplit(rest, "\n"))
  {
    var text := header + "\n" + rest;
    FreeWithoutFirstChar(header, "\n");
    assert FindFrom(text, "\n", 0) == |header| by {
      assert OccursAt(text, "\n", |header|) by { assert text[|header|..|header| + 1] == "\n"; }
      forall j | 0 <= j < |header| ensures !OccursAt(text, "\n", j) {
        assert text[j..j + 1] == header[j..j + 1];
      }
    }
    assert text[..|header|] == header;
    assert text[|header| + 1..] == rest;
    assert SplitOn(text, "\n") == [header] + SplitOn(rest, "\n");
    DropTrailingEmptyCons(header, SplitOn(rest, "\n"));
  }

  // ---------------------------------------------------------------------
  // The X-Trace metadata field and edges
  // ---------------------------------------------------------------------

  predicate IsHexDigit(c: char)
  {
    '0' <= c <= '9' || 'a' <= c <= 'f' || 'A' <= c <= 'F'
  }

  function HexValue(c: char): (r: nat)
    requires IsHexDigit(c)
    ensures r < 16
  {
    if '0' <= c <= '9' then c as int - '0' as int
    else if 'a' <= c <= 'f' then c as int - 'a' as int + 10
    else c as int - 'A' as int + 10
  }

  /** Ruby's whitespace, which `to_i` skips before the digits. */
  predicate IsRubySpace(c: char)
  {
    c == ' ' || c == '\t' || c == '\n' || c == '\r' || c == 11 as char || c == 12 as char
  }

  /** Ruby's `to_i(16)` on the (at most two) flag characters: leading
      whitespace, then an optional sign, then the hex digits up to the first
      other character; 0 when there are none. */
  function FlagsValue(f: string): (r: int)
    requires |f| <= 2
    ensures -15 <= r <= 255
  {
    if f == [] then 0
    else if IsHexDigit(f[0]) then
      if |f| == 2 && IsHexDigit(f[1]) then 16 * HexValue(f[0]) + HexValue(f[1]) else HexValue(f[0])
    else if |f| == 2 && IsHexDigit(f[1]) && (IsRubySpace(f[0]) || f[0] == '+') then HexValue(f[1])
    else if |f| == 2 && IsHexDigit(f[1]) && f[0] == '-' then -(HexValue(f[1]) as int)
    else 0
  }

  /** 16 when bit 8 of the flags is set (in two's complement, as Ruby's `&`
      computes it), otherwise 8. */
  function OpIdLength(value: string): (r: nat)
    ensures r == 8 || r == 16
  {
    var flags := FlagsValue(value[..if |value| < 2 then |value| else 2]);
    if flags % 16 >= 8 then 16 else 8
  }

  /** `value[2..-(len+1)]`: nil when the value is shorter than 2, empty when
      nothing lies between the flags and the operation id. */
  function TaskIdOf(value: string): (r: Option<string>)
    ensures r.None? <==> |value| < 2
    ensures r.Some? ==> |r.value| + 2 <= |value| && r.value == value[2..2 + |r.value|]
  {
    var n := OpIdLength(value);
    if |value| < 2 then None
    else if |value| - n <= 2 then Some("")
    else Some(value[2..|value| - n])
  }

  /** `value[-len..-1]`: the last 8 or 16 characters, nil when the value is
      shorter. */
  function OpIdOf(value: string): (r: Option<string>)
    ensures r.None? <==> |value| < OpIdLength(value)
    ensures r.Some? ==> |r.value| == OpIdLength(value) && r.value == value[|value| - |r.value|..]
  {
    var n := OpIdLength(value);
    if |value| < n then None else Some(value[|value| - n..])
  }

  /** Decoding undoes the encoding: two hex flag digits, the task id, and an
      operation id of the length the flags call for. */
  lemma MetadataRoundTrip(flags: string, task: string, op: string)
    requires |flags| == 2 && IsHexDigit(flags[0]) && IsHexDigit(flags[1])
    requires |op| == (if HexValue(flags[1]) >= 8 then 16 else 8)
    ensures TaskIdOf(flags + task + op) == Some(task)
    ensures OpIdOf(flags + task + op) == Some(op)
  {
    var value := flags + task + op;
    assert value[..2] == flags;
    assert (16 * HexValue(flags[0]) + HexValue(flags[1])) % 16 == HexValue(flags[1]);
    assert OpIdLength(value) == |op|;
    assert value[2..|value| - |op|] == task;
    assert value[|value| - |op|..] == op;
  }

  /** `value.split(",")[0]`: the text before the first comma, nil when the
      split leaves nothing. */
  function EdgeOf(value: string): Option<string>
  {
    var parts := RubySplit(value, ",");
    if parts == [] then None else Some(parts[0])
  }

  /** Every piece of a comma split is empty exactly when the text is all
      commas. */
  lemma {:induction false} CommaPiecesEmpty(s: string)
    ensures (forall k :: 0 <= k < |SplitOn(s, ",")| ==> SplitOn(s, ",")[k] == "")
            <==> forall i :: 0 <= i < |s| ==> s[i] == ','
    decreases |s|
  {
    var i := FindFrom(s, ",", 0);
    var parts := SplitOn(s, ",");
    if i < 0 {
      assert parts == [s];
      if s != [] {
        assert !OccursAt(s, ",", 0);
        assert s[0..1] == [s[0]];
        assert s[0] != ',';
        assert SplitOn(s, ",")[0] != "";
      }
    } else {
      assert s[i..i + 1] == [s[i]];
      var rest := s[i + 1..];
      CommaPiecesEmpty(rest);
      assert parts == [s[..i]] + SplitOn(rest, ",");
      if i > 0 {
        assert !OccursAt(s, ",", 0);
        assert s[0..1] == [s[0]];
        assert parts[0][0] == s[0];
      } else {
        forall k | 0 <= k < |rest| ensures rest[k] == s[k + 1] { }
        assert forall k :: 0 <= k < |SplitOn(rest, ",")| ==> parts[k + 1] == SplitOn(rest, ",")[k];
      }
    }
  }

  /** No comma comes before the first one that `FindFrom` finds. */
  lemma FirstComma(value: string)
    ensures var i := FindFrom(value, ",", 0);
      && (forall j :: 0 <= j < |value| && (i < 0 || j < i) ==> value[j] != ',')
      && (i >= 0 ==> i < |value| && value[i] == ',')
  {
    var i := FindFrom(value, ",", 0);
    forall j | 0 <= j < |value| && (i < 0 || j < i) ensures value[j] != ',' {
      assert !OccursAt(value, ",", j);
      assert value[j..j + 1] == [value[j]];
    }
    if i >= 0 {
      assert value[i..i + 1] == [value[i]];
    }
  }

  /** An edge is nil exactly when its value is all commas. */
  lemma EdgeNil(value: string)
    ensures EdgeOf(value).None? <==> forall i :: 0 <= i < |value| ==> value[i] == ','
  {
    DropTrailingEmptyNone(SplitOn(value, ","));
    CommaPiecesEmpty(value);
    assert RubySplit(value, ",") == DropTrailingEmpty(SplitOn(value, ","));
  }

  /** An edge that is not nil is its value up to the first comma. */
  lemma EdgeFirstToken(value: string)
    requires EdgeOf(value).Some?
    ensures var t := EdgeOf(value).value;
      |t| <= |value| && value[..|t|] == t && ',' !in t && (|t| == |value| || value[|t|] == ',')
  {
    var i := FindFrom(value, ",", 0);
    FirstComma(value);
    var t := EdgeOf(value).value;
    assert t == SplitOn(value, ",")[0];
    assert t == if i < 0 then value else value[..i];
  }

  // ---------------------------------------------------------------------
  // Parsing a report
  // ---------------------------------------------------------------------

  /** What a report's lines leave behind: each lower-cased key's values in
      order, the edges, and the task and operation ids of the X-Trace
      field. */
  datatype Parsed = Parsed(fields: map<string, seq<string>>, edges: seq<Option<string>>, taskid: Option<string>, opid: Option<string>)

  /** The effect of one line. A line that does not match is reported and
      passed over. */
  function Absorb(p: Parsed, line: string): Parsed
  {
    match KeyValue(line)
    case None => p
    case Some((k, value)) =>
      var key := ToLower(k);
      Parsed(AddValue(p.fields, key, value),
             if key == EDGE_KEY then p.edges + [EdgeOf(value)] else p.edges,
             if key == XTRACE_KEY then TaskIdOf(value) else p.taskid,
             if key == XTRACE_KEY then OpIdOf(value) else p.opid)
  }

  /** `@fields[key] << value`, starting the key's list when it has none. */
  function AddValue(fields: map<string, seq<string>>, key: string, value: string): map<string, seq<string>>
  {
    fields[key := (if key in fields then fields[key] else []) + [value]]
  }

  /** The lines absorbed in order into an empty report. */
  function AbsorbAll(lines: seq<string>): Parsed
  {
    if lines == [] then Parsed(map[], [], None, None)
    else Absorb(AbsorbAll(lines[..|lines| - 1]), lines[|lines| - 1])
  }

  /** Absorbing one more line of a prefix. */
  lemma AbsorbAllSnoc(lines: seq<string>, i: nat)
    requires i < |lines|
    ensures AbsorbAll(lines[..i + 1]) == Absorb(AbsorbAll(lines[..i]), lines[i])
  {
    assert lines[..i + 1][..i] == lines[..i];
  }

  /** What one line says under `key`: its value when its lower-cased key
      is `key`, nothing otherwise. */
  function Said(line: string, key: string): (r: seq<string>)
    ensures |r| <= 1
  {
    match KeyValue(line)
    case Some((k, value)) => if ToLower(k) == key then [value] else []
    case None => []
  }

  /** Reference definition: the values of the lines whose lower-cased key is
      `key`, in order. */
  function ValuesFor(lines: seq<string>, key: string): seq<string>
  {
    if lines == [] then [] else ValuesFor(lines[..|lines| - 1], key) + Said(lines[|lines| - 1], key)
  }

  /** One line adds what it says under a key to that key's values. */
  lemma AbsorbFields(p: Parsed, line: string, key: string)
    ensures key in Absorb(p, line).fields <==> key in p.fields || Said(line, key) != []
    ensures key in Absorb(p, line).fields ==>
              Absorb(p, line).fields[key] == (if key in p.fields then p.fields[key] else []) + Said(line, key)
  {
  }

  /** An X-Trace value resets both ids; any other line keeps them. */
  lemma AbsorbMetadata(p: Parsed, line: string)
    ensures Said(line, XTRACE_KEY) == [] ==> Absorb(p, line).taskid == p.taskid && Absorb(p, line).opid == p.opid
    ensures Said(line, XTRACE_KEY) != [] ==>
              && Absorb(p, line).taskid == TaskIdOf(Said(line, XTRACE_KEY)[0])
              && Absorb(p, line).opid == OpIdOf(Said(line, XTRACE_KEY)[0])
  {
  }

  /** An edge value adds its edge; any other line keeps the edges. */
  lemma AbsorbEdges(p: Parsed, line: string)
    ensures Absorb(p, line).edges == p.edges + if Said(line, EDGE_KEY) == [] then [] else [EdgeOf(Said(line, EDGE_KEY)[0])]
  {
  }

  /** Every key ever seen holds all its values in order; a key nobody wrote
      is absent, and the fields map is never emptied for a key. */
  lemma {:induction false} FieldsInOrder(lines: seq<string>, key: string)
    ensures key in AbsorbAll(lines).fields <==> ValuesFor(lines, key) != []
    ensures key in AbsorbAll(lines).fields ==> AbsorbAll(lines).fields[key] == ValuesFor(lines, key)
    decreases |lines|
  {
    if lines != [] {
      var init := lines[..|lines| - 1];
      FieldsInOrder(init, key);
      AbsorbFields(AbsorbAll(init), lines[|lines| - 1], key);
    }
  }

  /** The edges are the first tokens of the `edge` values, in order. */
  lemma {:induction false} EdgesInOrder(lines: seq<string>)
    ensures var vs := ValuesFor(lines, EDGE_KEY);
      |AbsorbAll(lines).edges| == |vs| && forall i :: 0 <= i < |vs| ==> AbsorbAll(lines).edges[i] == EdgeOf(vs[i])
    decreases |lines|
  {
    if lines != [] {
      var init := lines[..|lines| - 1];
      EdgesInOrder(init);
      AbsorbEdges(AbsorbAll(init), lines[|lines| - 1]);
    }
  }

  /** The task and operation ids come from the last X-Trace field; with
      none, both stay nil. */
  lemma {:induction false} MetadataFromLast(lines: seq<string>)
    ensures var vs := ValuesFor(lines, XTRACE_KEY);
      && (vs == [] ==> AbsorbAll(lines).taskid.None? && AbsorbAll(lines).opid.None?)
      && (vs != [] ==> AbsorbAll(lines).taskid == TaskIdOf(vs[|vs| - 1]) && AbsorbAll(lines).opid == OpIdOf(vs[|vs| - 1]))
    decreases |lines|
  {
    if lines != [] {
      var init, last := lines[..|lines| - 1], lines[|lines| - 1];
      MetadataFromLast(init);
      AbsorbMetadata(AbsorbAll(init), last);
      var vs := ValuesFor(lines, XTRACE_KEY);
      assert vs == ValuesFor(init, XTRACE_KEY) + Said(last, XTRACE_KEY);
      if Said(last, XTRACE_KEY) != [] {
        assert vs[|vs| - 1] == Said(last, XTRACE_KEY)[0];
      }
    }
  }

  /** A report: its text and what its lines say. */
  class Report {
    const text: string
    var fields: map<string, seq<string>>
    var edges: seq<Option<string>>
    var taskid: Option<string>
    var opid: Option<string>

    /** `Report.new`: the lines after the first, without stack-trace lines,
        absorbed one at a time. */
    constructor (text: string)
      ensures this.text == text
      ensures Parsed(fields, edges, taskid, opid) == AbsorbAll(Body(text))
    {
      this.text := text;
      fields := map[];
      edges := [];
      taskid := None;
      opid := None;
      new;
      var lines := Body(text);
      for i := 0 to |lines|
        invariant Parsed(fields, edges, taskid, opid) == AbsorbAll(lines[..i])
      {
        AbsorbAllSnoc(lines, i);
        AbsorbLine(lines[i]);
      }
      assert lines[..|lines|] == lines;
    }

    /** One line of the report: a matching line appends its value to its
        key's values and updates the ids or the edges for the special keys. */
    method AbsorbLine(line: string)
      modifies this
      ensures Parsed(fields, edges, taskid, opid) == Absorb(old(Parsed(fields, edges, taskid, opid)), line)
    {
      var matched := KeyValue(line);
      if matched.Some? {
        var (k, value) := matched.value;
        var key := ToLower(k);
        if key == XTRACE_KEY {
          taskid := TaskIdOf(value);
          opid := OpIdOf(value);
        } else if key == EDGE_KEY {
          edges := edges + [EdgeOf(value)];
        }
        var values := if key in fields then fields[key] else [];
        fields := fields[key := values + [value]];
      }
    }
  }

  // ---------------------------------------------------------------------
  // Building a trace
  // ---------------------------------------------------------------------

  predicate Distinct<T(==)>(s: seq<T>)
  {
    forall i, j :: 0 <= i < j < |s| ==> s[i] != s[j]
  }

  /** Every child position names a report. */
  predicate Graph(children: seq<seq<nat>>)
  {
    forall v, k :: 0 <= v < |children| && 0 <= k < |children[v]| ==> children[v][k] < |children|
  }

  /** The `k`-th step of `p` follows a child link. */
  predicate Linked(children: seq<seq<nat>>, p: seq<nat>, k: nat)
    requires k + 1 < |p| && p[k] < |children|
  {
    p[k + 1] in children[p[k]]
  }

  /** A walk along child links. */
  ghost predicate IsPath(children: seq<seq<nat>>, p: seq<nat>)
  {
    && |p| >= 1
    && (forall k :: 0 <= k < |p| ==> p[k] < |children|)
    && forall k: nat :: k < |p| - 1 ==> Linked(children, p, k)
  }

  /** `v` is reached from one of `sources` by following child links. */
  ghost predicate Reachable(children: seq<seq<nat>>, sources: seq<nat>, v: nat)
  {
    exists p :: IsPath(children, p) && p[0] in sources && p[|p| - 1] == v
  }

  lemma SourceReachable(children: seq<seq<nat>>, sources: seq<nat>, v: nat)
    requires v in sources && v < |children|
    ensures Reachable(children, sources, v)
  {
    assert IsPath(children, [v]);
  }

  lemma ChildReachable(children: seq<seq<nat>>, sources: seq<nat>, v: nat, c: nat)
    requires Graph(children) && Reachable(children, sources, v) && c in children[v]
    ensures Reachable(children, sources, c)
  {
    var p :| IsPath(children, p) && p[0] in sources && p[|p| - 1] == v;
    var q := p + [c];
    assert forall k: nat :: k < |q| - 1 ==> Linked(children, q, k) by {
      forall k: nat | k < |q| - 1 ensures Linked(children, q, k) {
        if k < |p| - 1 {
          assert Linked(children, p, k);
        }
      }
    }
    assert IsPath(children, q);
  }

  /** A set of reports holding the sources and closed under child links
      holds every report reachable from them. */
  lemma ClosedHoldsReachable(children: seq<seq<nat>>, sources: seq<nat>, s: set<nat>, v: nat)
    requires forall u :: u in sources ==> u in s
    requires forall u, c :: u in s && u < |children| && c in children[u] ==> c in s
    requires Reachable(children, sources, v)
    ensures v in s
  {
    var p :| IsPath(children, p) && p[0] in sources && p[|p| - 1] == v;
    PathStaysIn(children, s, p, |p| - 1);
  }

  lemma {:induction false} PathStaysIn(children: seq<seq<nat>>, s: set<nat>, p: seq<nat>, k: nat)
    requires IsPath(children, p) && p[0] in s && k < |p|
    requires forall u, c :: u in s && u < |children| && c in children[u] ==> c in s
    ensures p[k] in s
  {
    if k > 0 {
      PathStaysIn(children, s, p, k - 1);
      assert Linked(children, p, k - 1);
    }
  }

  /** A set of positions below `n` has at most `n` members. */
  lemma SubsetBelow(a: set<nat>, n: nat)
    requires forall v :: v in a ==> v < n
    ensures |a| <= n
  {
    if n > 0 {
      SubsetBelow(a - {n - 1}, n - 1);
    } else {
      assert a == {};
    }
  }

  /** Adding a position below `n` that is not yet in a set of positions
      below `n` grows the set by one and keeps it within `n`. */
  lemma AddBelow(a: set<nat>, x: nat, n: nat)
    requires forall v :: v in a ==> v < n
    requires x < n && x !in a
    ensures |a + {x}| == |a| + 1 <= n
  {
    SubsetBelow(a + {x}, n);
  }

  /** What holds after the first `i` reports are indexed. */
  ghost predicate Indexed(opids: seq<Option<string>>, i: nat, byId: map<Option<string>, nat>, duplicates: nat)
    requires i <= |opids|
  {
    && (forall o :: o in byId ==> byId[o] < i && opids[byId[o]] == o)
    && (forall j :: 0 <= j < i ==> opids[j] in byId && j <= byId[opids[j]])
    && duplicates + |byId.Keys| == i
  }

  /** Updating a key already present keeps the key set; adding a new key
      grows it by one. */
  lemma KeysAfterUpdate<K, V>(m: map<K, V>, k: K, v: V)
    ensures k in m ==> m[k := v].Keys == m.Keys
    ensures k !in m ==> |m[k := v].Keys| == |m.Keys| + 1
  {
    if k !in m {
      assert m[k := v].Keys == m.Keys + {k};
    }
  }

  /** Indexing one more report keeps `Indexed`. */
  lemma IndexStep(opids: seq<Option<string>>, i: nat, byId: map<Option<string>, nat>, duplicates: nat)
    requires i < |opids| && Indexed(opids, i, byId, duplicates)
    ensures Indexed(opids, i + 1, byId[opids[i] := i], if opids[i] in byId then duplicates + 1 else duplicates)
  {
    KeysAfterUpdate(byId, opids[i], i);
  }

  /** `@reports_by_id`: the last report with each operation id; and
      `@duplicates`: how many reports repeat an earlier report's id. */
  method IndexReports(opids: seq<Option<string>>) returns (byId: map<Option<string>, nat>, duplicates: nat)
    ensures forall o :: o in byId ==> byId[o] < |opids| && opids[byId[o]] == o
    ensures forall j :: 0 <= j < |opids| ==> opids[j] in byId && j <= byId[opids[j]]
    ensures duplicates == |opids| - |byId.Keys|
  {
    byId := map[];
    duplicates := 0;
    for i := 0 to |opids|
      invariant Indexed(opids, i, byId, duplicates)
    {
      IndexStep(opids, i, byId, duplicates);
      if opids[i] in byId {
        duplicates := duplicates + 1;
      }
      byId := byId[opids[i] := i];
    }
  }

  /** `edges.select { has_key? }.map { by_id[..] }`: the reports that the
      resolvable edges name, in edge order, repeats kept. */
  function ParentsOf(edges: seq<Option<string>>, byId: map<Option<string>, nat>): (r: seq<nat>)
    ensures |r| <= |edges|
    ensures forall p :: p in r <==> exists e :: e in edges && e in byId && byId[e] == p
  {
    if edges == [] then []
    else (if edges[0] in byId then [byId[edges[0]]] else []) + ParentsOf(edges[1..], byId)
  }

  /** How often `x` occurs in `s`. */
  function Count(s: seq<nat>, x: nat): nat
  {
    if s == [] then 0 else Count(s[..|s| - 1], x) + (if s[|s| - 1] == x then 1 else 0)
  }

  /** Counting distributes over concatenation. */
  lemma {:induction false} CountAppend(a: seq<nat>, b: seq<nat>, x: nat)
    ensures Count(a + b, x) == Count(a, x) + Count(b, x)
    decreases |b|
  {
    if b == [] {
      assert a + b == a;
    } else {
      assert (a + b)[..|a + b| - 1] == a + b[..|b| - 1];
      CountAppend(a, b[..|b| - 1], x);
    }
  }

  /** An element occurs a positive number of times exactly when it is in
      the sequence. */
  lemma {:induction false} CountIn(s: seq<nat>, x: nat)
    ensures Count(s, x) > 0 <==> x in s
  {
    if s != [] {
      CountIn(s[..|s| - 1], x);
      assert s == s[..|s| - 1] + [s[|s| - 1]];
    }
  }

  /** `n` copies of `x`. */
  function Repeat(x: nat, n: nat): (r: seq<nat>)
    ensures |r| == n && forall k :: 0 <= k < n ==> r[k] == x
  {
    seq(n, _ => x)
  }

  /** A run of copies of `x` counts `x` once per copy and nothing else. */
  lemma {:induction false} RepeatCount(x: nat, n: nat, y: nat)
    ensures Count(Repeat(x, n), y) == if y == x then n else 0
  {
    if n > 0 {
      assert Repeat(x, n)[..n - 1] == Repeat(x, n - 1);
      RepeatCount(x, n - 1, y);
    }
  }

  /** Reference definition: the children of report `p` once the first `n`
      reports are linked, namely each report below `n` that names `p`, once
      per naming, in report order. */
  function ChildList(parents: seq<seq<nat>>, p: nat, n: nat): seq<nat>
    requires n <= |parents|
  {
    if n == 0 then [] else ChildList(parents, p, n - 1) + Repeat(n - 1, Count(parents[n - 1], p))
  }

  /** A child list holds each report below `n` as often as it names `p`. */
  lemma {:induction false} ChildListCounts(parents: seq<seq<nat>>, p: nat, n: nat, x: nat)
    requires n <= |parents|
    ensures Count(ChildList(parents, p, n), x) == if x < n then Count(parents[x], p) else 0
  {
    if n > 0 {
      var m := Count(parents[n - 1], p);
      ChildListCounts(parents, p, n - 1, x);
      RepeatCount(n - 1, m, x);
      CountAppend(ChildList(parents, p, n - 1), Repeat(n - 1, m), x);
    }
  }

  /** A child list is in report order and names only reports below `n`. */
  lemma {:induction false} ChildListSorted(parents: seq<seq<nat>>, p: nat, n: nat)
    requires n <= |parents|
    ensures forall k :: 0 <= k < |ChildList(parents, p, n)| ==> ChildList(parents, p, n)[k] < n
    ensures forall j, k :: 0 <= j <= k < |ChildList(parents, p, n)| ==> ChildList(parents, p, n)[j] <= ChildList(parents, p, n)[k]
  {
    if n > 0 {
      ChildListSorted(parents, p, n - 1);
      var init := ChildList(parents, p, n - 1);
      var r := ChildList(parents, p, n);
      assert forall k :: 0 <= k < |init| ==> r[k] == init[k];
      assert forall k :: |init| <= k < |r| ==> r[k] == n - 1;
    }
  }

  /** `@reports.each { parents.each { |p| p.children << report } }`: each
      report lists, in report order, the reports that name it as a parent,
      once per naming. */
  method LinkChildren(parents: seq<seq<nat>>) returns (children: seq<seq<nat>>)
    requires forall c, k :: 0 <= c < |parents| && 0 <= k < |parents[c]| ==> parents[c][k] < |parents|
    ensures |children| == |parents|
    ensures forall p :: 0 <= p < |parents| ==> children[p] == ChildList(parents, p, |parents|)
  {
    var n := |parents|;
    children := seq(n, _ => []);
    for c := 0 to n
      invariant |children| == n
      invariant forall p :: 0 <= p < n ==> children[p] == ChildList(parents, p, c)
    {
      children := AttachChild(children, c, parents[c]);
    }
  }

  /** The children mirror the parents: a report is a child of `p` exactly
      as often as it names `p` as a parent, the children are reports, and
      each child list is in report order. */
  lemma ChildrenMirrorParents(parents: seq<seq<nat>>, children: seq<seq<nat>>)
    requires |children| == |parents|
    requires forall p :: 0 <= p < |parents| ==> children[p] == ChildList(parents, p, |parents|)
    ensures forall p, c :: 0 <= p < |parents| && 0 <= c < |parents| ==> Count(children[p], c) == Count(parents[c], p)
    ensures forall p, c :: 0 <= p < |parents| && 0 <= c < |parents| ==> (c in children[p] <==> p in parents[c])
    ensures Graph(children)
    ensures forall p, j, k :: 0 <= p < |parents| && 0 <= j <= k < |children[p]| ==> children[p][j] <= children[p][k]
  {
    forall p, c | 0 <= p < |parents| && 0 <= c < |parents|
      ensures Count(children[p], c) == Count(parents[c], p)
      ensures c in children[p] <==> p in parents[c]
    {
      ChildListCounts(parents, p, |parents|, c);
      CountIn(children[p], c);
      CountIn(parents[c], p);
    }
    forall p | 0 <= p < |parents| ensures forall k :: 0 <= k < |children[p]| ==> children[p][k] < |parents| {
      ChildListSorted(parents, p, |parents|);
    }
    forall p | 0 <= p < |parents|
      ensures forall j, k :: 0 <= j <= k < |children[p]| ==> children[p][j] <= children[p][k]
    {
      ChildListSorted(parents, p, |parents|);
    }
  }

  /** One report added as a child of each of its parents, in order. */
  method AttachChild(children: seq<seq<nat>>, c: nat, pars: seq<nat>) returns (r: seq<seq<nat>>)
    requires forall k :: 0 <= k < |pars| ==> pars[k] < |children|
    ensures |r| == |children|
    ensures forall p :: 0 <= p < |children| ==> r[p] == children[p] + Repeat(c, Count(pars, p))
  {
    r := children;
    for j := 0 to |pars|
      invariant |r| == |children|
      invariant forall p :: 0 <= p < |children| ==> r[p] == children[p] + Repeat(c, Count(pars[..j], p))
    {
      var par := pars[j];
      assert pars[..j + 1][..j] == pars[..j];
      assert Repeat(c, Count(pars[..j], par)) + [c] == Repeat(c, Count(pars[..j + 1], par));
      r := r[par := r[par] + [c]];
    }
    assert pars[..|pars|] == pars;
  }

  /** `r` lists, in increasing order, exactly the reports without
      parents. */
  ghost predicate RootList(r: seq<nat>, parents: seq<seq<nat>>)
  {
    && (forall v :: v in r <==> 0 <= v < |parents| && parents[v] == [])
    && (forall k :: 0 <= k < |r| ==> r[k] < |parents|)
    && (forall j, k :: 0 <= j < k < |r| ==> r[j] < r[k])
  }

  /** `@reports.select { parents.empty? }`: the reports without parents, in
      report order. */
  function Roots(parents: seq<seq<nat>>): (r: seq<nat>)
    ensures RootList(r, parents)
    decreases |parents|
  {
    if parents == [] then []
    else
      var n := |parents| - 1;
      var init := Roots(parents[..n]);
      RootsSnoc(parents, init);
      init + if parents[n] == [] then [n] else []
  }

  lemma RootsSnoc(parents: seq<seq<nat>>, init: seq<nat>)
    requires parents != [] && RootList(init, parents[..|parents| - 1])
    ensures var n := |parents| - 1;
      RootList(init + if parents[n] == [] then [n] else [], parents)
  {
    var n := |parents| - 1;
    assert forall v :: 0 <= v < n ==> parents[..n][v] == parents[v];
    assert forall k :: 0 <= k < |init| ==> init[k] in init && init[k] < n;
  }

  /** Every child of a visited report is visited or still on the stack. */
  predicate Closed(children: seq<seq<nat>>, stack: seq<nat>, visited: set<nat>)
  {
    forall v, c :: v in visited && v < |children| && c in children[v] ==> c in visited || c in stack
  }

  /** Popping the top report keeps the stack closing the visited set, both
      when the report was visited already and when it is visited now and its
      children (in any order) are pushed. */
  lemma PopKeepsClosed(children: seq<seq<nat>>, stack: seq<nat>, visited: set<nat>, pushed: seq<nat>)
    requires stack != [] && Closed(children, stack, visited)
    requires stack[|stack| - 1] < |children|
    requires forall c :: c in children[stack[|stack| - 1]] ==> c in pushed
    ensures var node := stack[|stack| - 1];
      && (node in visited ==> Closed(children, stack[..|stack| - 1], visited))
      && Closed(children, stack[..|stack| - 1] + pushed, visited + {node})
  {
    var node := stack[|stack| - 1];
    var rest := stack[..|stack| - 1];
    assert stack == rest + [node];
    forall v, c | v in visited + {node} && v < |children| && c in children[v]
      ensures c in visited + {node} || c in rest + pushed
    {
      if v != node {
        assert c in visited || c in stack;
      }
    }
  }

  /** What was on the stack is still on it after a pop, or was popped. */
  lemma PopMembers(stack: seq<nat>)
    requires stack != []
    ensures forall v :: v in stack <==> v in stack[..|stack| - 1] || v == stack[|stack| - 1]
  {
    assert stack == stack[..|stack| - 1] + [stack[|stack| - 1]];
  }

  /** Every report of `s` is reachable from `sources`. */
  ghost predicate Reached(children: seq<seq<nat>>, sources: seq<nat>, s: seq<nat>)
  {
    forall k :: 0 <= k < |s| ==> Reachable(children, sources, s[k])
  }

  /** Pushing children of a reachable report keeps the stack reachable. */
  lemma PushReached(children: seq<seq<nat>>, sources: seq<nat>, rest: seq<nat>, node: nat, pushed: seq<nat>)
    requires Graph(children) && Reached(children, sources, rest) && Reachable(children, sources, node)
    requires forall c :: c in pushed ==> c in children[node]
    ensures Reached(children, sources, rest + pushed)
  {
    forall k | 0 <= k < |rest + pushed| ensures Reachable(children, sources, (rest + pushed)[k]) {
      if k >= |rest| {
        ChildReachable(children, sources, node, pushed[k - |rest|]);
      }
    }
  }

  /** Every position of `s` is below `n`. */
  predicate Below(s: seq<nat>, n: nat)
  {
    forall k :: 0 <= k < |s| ==> s[k] < n
  }

  /** Popping keeps the stack below `n`, and the top was below `n`. */
  lemma PopBelow(s: seq<nat>, n: nat)
    requires s != [] && Below(s, n)
    ensures Below(s[..|s| - 1], n) && s[|s| - 1] < n
  {
    var t := s[..|s| - 1];
    forall k | 0 <= k < |t| ensures t[k] < n {
      assert t[k] == s[k];
    }
  }

  /** Pushing children of a report keeps the stack below the report count. */
  lemma PushBelow(children: seq<seq<nat>>, rest: seq<nat>, v: nat, pushed: seq<nat>)
    requires Graph(children) && Below(rest, |children|) && v < |children|
    requires forall c :: c in pushed ==> c in children[v]
    ensures Below(rest + pushed, |children|)
  {
    forall k | 0 <= k < |rest + pushed| ensures (rest + pushed)[k] < |children| {
      if k >= |rest| {
        assert pushed[k - |rest|] in children[v];
      }
    }
  }

  /** Popping keeps the stack reachable, and the top was reachable. */
  lemma PopReached(children: seq<seq<nat>>, sources: seq<nat>, s: seq<nat>)
    requires s != [] && Reached(children, sources, s)
    ensures Reached(children, sources, s[..|s| - 1]) && Reachable(children, sources, s[|s| - 1])
  {
    var t := s[..|s| - 1];
    forall k | 0 <= k < |t| ensures Reachable(children, sources, t[k]) {
      assert t[k] == s[k];
    }
  }

  /** Appending a reachable report keeps a sequence reachable. */
  lemma SnocReached(children: seq<seq<nat>>, sources: seq<nat>, s: seq<nat>, x: nat)
    requires Reached(children, sources, s) && Reachable(children, sources, x)
    ensures Reached(children, sources, s + [x])
  {
    forall k | 0 <= k < |s| + 1 ensures Reachable(children, sources, (s + [x])[k]) {
      if k < |s| {
        assert (s + [x])[k] == s[k];
      }
    }
  }

  /** Appending a new element keeps a sequence free of repeats. */
  lemma DistinctSnoc(s: seq<nat>, x: nat)
    requires Distinct(s) && x !in s
    ensures Distinct(s + [x])
  {
    forall i, j | 0 <= i < j < |s| + 1 ensures (s + [x])[i] != (s + [x])[j] {
      if j < |s| {
        assert (s + [x])[i] == s[i] && (s + [x])[j] == s[j];
      } else {
        assert s[i] in s;
      }
    }
  }

  /** What holds between steps of `visit_postorder`: the stack and the
      visited reports are reports, the order lists the visited reports once
      each, every visited report's children are visited or on the stack,
      every root is visited or on the stack, and all of them are reachable
      from the roots. */
  ghost predicate Traversal(children: seq<seq<nat>>, roots: seq<nat>, stack: seq<nat>, visited: set<nat>, order: seq<nat>)
  {
    && Below(stack, |children|)
    && (forall v :: v in visited <==> v in order)
    && Distinct(order) && |order| == |visited|
    && (forall v :: v in visited ==> v < |children|)
    && Closed(children, stack, visited)
    && (forall v :: v in roots ==> v in visited || v in stack)
    && Reached(children, roots, stack) && Reached(children, roots, order)
  }

  /** One step of `visit_postorder` keeps the traversal state. */
  lemma VisitStep(children: seq<seq<nat>>, roots: seq<nat>, stack: seq<nat>, visited: set<nat>, order: seq<nat>)
    requires Graph(children) && stack != [] && Traversal(children, roots, stack, visited, order)
    ensures var node, rest := stack[|stack| - 1], stack[..|stack| - 1];
      && node < |children|
      && (node in visited ==> Traversal(children, roots, rest, visited, order))
      && (node !in visited ==> Traversal(children, roots, rest + children[node], visited + {node}, order + [node]))
  {
    var node, rest := stack[|stack| - 1], stack[..|stack| - 1];
    PopBelow(stack, |children|);
    PopReached(children, roots, stack);
    PopKeepsClosed(children, stack, visited, children[node]);
    PopMembers(stack);
    if node !in visited {
      PushBelow(children, rest, node, children[node]);
      PushReached(children, roots, rest, node, children[node]);
      SnocReached(children, roots, order, node);
      DistinctSnoc(order, node);
    }
  }

  /** The traversal starts with the roots on the stack and nothing visited. */
  lemma TraversalStarts(children: seq<seq<nat>>, roots: seq<nat>)
    requires forall k :: 0 <= k < |roots| ==> roots[k] < |children|
    ensures Traversal(children, roots, roots, {}, [])
  {
    forall k | 0 <= k < |roots| ensures Reachable(children, roots, roots[k]) {
      SourceReachable(children, roots, roots[k]);
    }
  }

  /** With the stack empty, the order lists exactly the reachable reports. */
  lemma TraversalEnds(children: seq<seq<nat>>, roots: seq<nat>, visited: set<nat>, order: seq<nat>)
    requires Traversal(children, roots, [], visited, order)
    ensures Distinct(order) && |order| <= |children|
    ensures forall k :: 0 <= k < |order| ==> order[k] < |children|
    ensures forall v :: v in order <==> Reachable(children, roots, v)
  {
    SubsetBelow(visited, |children|);
    forall v | Reachable(children, roots, v) ensures v in order {
      ClosedHoldsReachable(children, roots, visited, v);
    }
    forall v | v in order ensures Reachable(children, roots, v) {
      var k :| 0 <= k < |order| && order[k] == v;
    }
  }

  /** `visit_postorder`: pops the stack until it is empty; a report not yet
      visited is appended to the order and its children pushed. Each report
      reachable from the roots is visited exactly once, and no other. */
  method VisitPostorder(roots: seq<nat>, children: seq<seq<nat>>) returns (order: seq<nat>)
    requires Graph(children)
    requires forall k :: 0 <= k < |roots| ==> roots[k] < |children|
    ensures Distinct(order) && |order| <= |children|
    ensures forall k :: 0 <= k < |order| ==> order[k] < |children|
    ensures forall v :: v in order <==> Reachable(children, roots, v)
  {
    var stack: seq<nat> := roots;
    var visited: set<nat> := {};
    order := [];
    TraversalStarts(children, roots);
    while stack != []
      invariant Traversal(children, roots, stack, visited, order)
      decreases |children| - |visited|, |stack|
    {
      VisitStep(children, roots, stack, visited, order);
      var node := stack[|stack| - 1];
      stack := stack[..|stack| - 1];
      if node !in visited {
        AddBelow(visited, node, |children|);
        visited := visited + {node};
        order := order + [node];
        stack := stack + children[node];
      }
    }
    TraversalEnds(children, roots, visited, order);
  }

  /** `order.reverse_each { node.index = last_index -= 1 }`: the last of the
      order gets N-1, the one before N-2, and so on; reports not in the
      order get no index. */
  method AssignIndices(order: seq<nat>, n: nat) returns (index: seq<Option<nat>>)
    requires Distinct(order) && |order| <= n
    requires forall k :: 0 <= k < |order| ==> order[k] < n
    ensures |index| == n
    ensures forall k :: 0 <= k < |order| ==> index[order[k]] == Some(n - |order| + k)
    ensures forall v :: 0 <= v < n ==> (index[v].Some? <==> v in order)
    ensures forall v :: 0 <= v < n && index[v].Some? ==> index[v].value < n
    ensures forall u, v :: 0 <= u < n && 0 <= v < n && u != v && index[u].Some? ==> index[u] != index[v]
  {
    index := seq(n, _ => None);
    var last := n;
    var k := |order|;
    while k > 0
      invariant 0 <= k <= |order| && last == n - |order| + k
      invariant |index| == n
      invariant forall j :: k <= j < |order| ==> index[order[j]] == Some(n - |order| + j)
      invariant forall v :: 0 <= v < n ==> (index[v].Some? <==> v in order[k..])
    {
      k := k - 1;
      last := last - 1;
      index := index[order[k] := Some(last)];
      assert order[k..] == [order[k]] + order[k + 1..];
    }
    forall v | 0 <= v < n && index[v].Some? ensures index[v].value < n {
      var j :| 0 <= j < |order| && order[j] == v;
    }
  }

  /** The reports of a trace's text, which are separated by blank lines. */
  function Texts(text: string): seq<string>
  {
    RubySplit(text, "\n\n")
  }

  /** The operation id of each report. */
  function OpIds(parsed: seq<Parsed>): (r: seq<Option<string>>)
    ensures |r| == |parsed| && forall i :: 0 <= i < |parsed| ==> r[i] == parsed[i].opid
  {
    seq(|parsed|, i requires 0 <= i < |parsed| => parsed[i].opid)
  }

  /** The parents of each report, from its edges. */
  function AllParents(parsed: seq<Parsed>, byId: map<Option<string>, nat>): (r: seq<seq<nat>>)
    requires forall o :: o in byId ==> byId[o] < |parsed|
    ensures |r| == |parsed| && forall i :: 0 <= i < |parsed| ==> r[i] == ParentsOf(parsed[i].edges, byId)
    ensures forall c, k :: 0 <= c < |r| && 0 <= k < |r[c]| ==> r[c][k] < |r|
  {
    var r := seq(|parsed|, i requires 0 <= i < |parsed| => ParentsOf(parsed[i].edges, byId));
    assert forall c, k :: 0 <= c < |r| && 0 <= k < |r[c]| ==> r[c][k] in ParentsOf(parsed[c].edges, byId);
    r
  }

  /** The numbering of `Trace.new`: the reports reachable from the roots,
      in postorder, take the highest numbers. A report is numbered exactly
      when it is reachable from a root, and the numbers are distinct and
      below the number of reports. */
  method Number(children: seq<seq<nat>>, roots: seq<nat>) returns (index: seq<Option<nat>>)
    requires Graph(children)
    requires forall k :: 0 <= k < |roots| ==> roots[k] < |children|
    ensures |index| == |children|
    ensures forall v :: 0 <= v < |children| ==> (index[v].Some? <==> Reachable(children, roots, v))
    ensures forall v :: 0 <= v < |children| && index[v].Some? ==> index[v].value < |children|
    ensures forall u, v :: 0 <= u < |children| && 0 <= v < |children| && u != v && index[u].Some? ==> index[u] != index[v]
  {
    var order := VisitPostorder(roots, children);
    index := AssignIndices(order, |children|);
  }

  /** `Trace.new` after the reports are parsed: the index by operation id
      (the last report with an id wins), the parent and child links, and
      the roots. */
  method Link(parsed: seq<Parsed>) returns (byId: map<Option<string>, nat>, duplicates: nat, parents: seq<seq<nat>>,
                                          children: seq<seq<nat>>, roots: seq<nat>)
    ensures forall o :: o in byId ==> byId[o] < |parsed| && parsed[byId[o]].opid == o
    ensures forall j :: 0 <= j < |parsed| ==> parsed[j].opid in byId && j <= byId[parsed[j].opid]
    ensures duplicates == |parsed| - |byId.Keys|
    ensures parents == AllParents(parsed, byId)
    ensures |children| == |parsed| && Graph(children)
    ensures forall p :: 0 <= p < |parsed| ==> children[p] == ChildList(parents, p, |parsed|)
    ensures forall p, c :: 0 <= p < |parsed| && 0 <= c < |parsed| ==> (c in children[p] <==> p in parents[c])
    ensures roots == Roots(parents)
  {
    byId, duplicates := IndexReports(OpIds(parsed));
    parents := AllParents(parsed, byId);
    children := LinkChildren(parents);
    ChildrenMirrorParents(parents, children);
    roots := Roots(parents);
  }

  /** Each text parsed as a report, in order. */
  method ParseReports(texts: seq<string>) returns (reports: seq<Report>)
    ensures |reports| == |texts|
    ensures forall i :: 0 <= i < |texts| ==> fresh(reports[i]) && reports[i].text == texts[i]
    ensures forall i :: 0 <= i < |texts| ==>
              Parsed(reports[i].fields, reports[i].edges, reports[i].taskid, reports[i].opid) == AbsorbAll(Body(texts[i]))
  {
    reports := [];
    for i := 0 to |texts|
      invariant |reports| == i
      invariant forall k :: 0 <= k < i ==> fresh(reports[k]) && reports[k].text == texts[k]
      invariant forall k :: 0 <= k < i ==>
                  Parsed(reports[k].fields, reports[k].edges, reports[k].taskid, reports[k].opid) == AbsorbAll(Body(texts[k]))
    {
      var r := new Report(texts[i]);
      reports := reports + [r];
    }
  }

  /** What the reports of a text say. */
  function ParsedAll(texts: seq<string>): (r: seq<Parsed>)
    ensures |r| == |texts|
  {
    seq(|texts|, i requires 0 <= i < |texts| => AbsorbAll(Body(texts[i])))
  }

  /** The links of `Trace.new` over parsed reports: `byId` holds each
      operation id under its last report, `dups` counts the reports it
      leaves out, every report's parents are its resolvable edges, its
      children are the reports naming it as parent (once per naming, in
      report order), and the roots are the parentless reports, ascending. */
  ghost predicate LinkedReports(parsed: seq<Parsed>, byId: map<Option<string>, nat>, dups: nat,
                         parents: seq<seq<nat>>, children: seq<seq<nat>>, roots: seq<nat>)
  {
    && (forall o :: o in byId ==> byId[o] < |parsed| && parsed[byId[o]].opid == o)
    && (forall j :: 0 <= j < |parsed| ==> parsed[j].opid in byId && j <= byId[parsed[j].opid])
    && dups == |parsed| - |byId.Keys|
    && parents == AllParents(parsed, byId)
    && |children| == |parsed| && Graph(children)
    && (forall p :: 0 <= p < |parsed| ==> children[p] == ChildList(parents, p, |parsed|))
    && (forall p, c :: 0 <= p < |parsed| && 0 <= c < |parsed| ==> (c in children[p] <==> p in parents[c]))
    && roots == Roots(parents)
  }

  /** The numbering of `Trace.new`: a number for exactly the reports
      reachable from a root, distinct and below the number of reports. */
  ghost predicate Numbered(children: seq<seq<nat>>, roots: seq<nat>, index: seq<Option<nat>>)
  {
    && |index| == |children|
    && (forall v :: 0 <= v < |children| ==> (index[v].Some? <==> Reachable(children, roots, v)))
    && (forall v :: 0 <= v < |children| && index[v].Some? ==> index[v].value < |children|)
    && (forall u, v :: 0 <= u < |children| && 0 <= v < |children| && u != v && index[u].Some? ==> index[u] != index[v])
  }

  /** The links and the numbering together. */
  ghost predicate Shaped(parsed: seq<Parsed>, byId: map<Option<string>, nat>, dups: nat,
                         parents: seq<seq<nat>>, children: seq<seq<nat>>, roots: seq<nat>, index: seq<Option<nat>>)
  {
    LinkedReports(parsed, byId, dups, parents, children, roots) && Numbered(children, roots, index)
  }

  /** What `Trace.new` computes from a trace's text: the parsed reports,
      the first report's task id, the index by operation id and the count
      of repeated ids, the parent and child links, the roots, and the
      numbering of the reports reachable from a root. The source reads the
      first report's task id, so a trace with no report is not accepted. */
  method Build(texts: seq<string>) returns (rs: seq<Report>, taskid: Option<string>, ids: map<Option<string>, nat>, dups: nat,
                                     ps: seq<seq<nat>>, cs: seq<seq<nat>>, rootList: seq<nat>, idx: seq<Option<nat>>)
    requires texts != []
    ensures |rs| == |texts|
    ensures forall i :: 0 <= i < |rs| ==> rs[i].text == texts[i]
    ensures forall i :: 0 <= i < |rs| ==> Parsed(rs[i].fields, rs[i].edges, rs[i].taskid, rs[i].opid) == AbsorbAll(Body(texts[i]))
    ensures taskid == AbsorbAll(Body(texts[0])).taskid
    ensures Shaped(ParsedAll(texts), ids, dups, ps, cs, rootList, idx)
  {
    rs := ParseReports(texts);
    ids, dups, ps, cs, rootList, idx := Shape(ParsedAll(texts));
    taskid := rs[0].taskid;
  }

  /** The links and numbering of `Trace.new` over parsed reports: the
      index by operation id and how many reports repeat an earlier id, the
      parents from the edges, children that mirror them, the parentless
      roots, and a number for exactly the reports reachable from a root. */
  method Shape(parsed: seq<Parsed>) returns (ids: map<Option<string>, nat>, dups: nat,
                                     ps: seq<seq<nat>>, cs: seq<seq<nat>>, rootList: seq<nat>, idx: seq<Option<nat>>)
    ensures LinkedReports(parsed, ids, dups, ps, cs, rootList)
    ensures Numbered(cs, rootList, idx)
  {
    ids, dups, ps, cs, rootList := Link(parsed);
    idx := Number(cs, rootList);
  }

  /** A trace built from its text. */
  class Trace {
    var reports: seq<Report>
    var taskid: Option<string>
    var duplicates: nat
    var byId: map<Option<string>, nat>
    var parents: seq<seq<nat>>
    var children: seq<seq<nat>>
    var roots: seq<nat>
    var index: seq<Option<nat>>

    /** `Trace.new`: the fields as `Build` computes them. */
    constructor (text: string)
      requires Texts(text) != []
      ensures |reports| == |Texts(text)|
      ensures forall i :: 0 <= i < |reports| ==> reports[i].text == Texts(text)[i]
      ensures taskid == AbsorbAll(Body(Texts(text)[0])).taskid
      ensures Shaped(ParsedAll(Texts(text)), byId, duplicates, parents, children, roots, index)
    {
      var rs, t, ids, dups, ps, cs, rootList, idx := Build(Texts(text));
      reports, taskid, byId, duplicates, parents, children, roots, index := rs, t, ids, dups, ps, cs, rootList, idx;
    }
  }

  /** What holds between steps of `next`: the stack and the visited
      reports are reports, no visited report satisfies `pred`, every visited
      report's children are visited or on the stack, `start` is visited
      first, and all on the stack are reachable from `start`. */
  ghost predicate Searching(children: seq<seq<nat>>, start: nat, pred: nat -> bool, stack: seq<nat>, visited: set<nat>)
  {
    && Below(stack, |children|)
    && (forall v :: v in visited ==> v < |children| && !pred(v))
    && Closed(children, stack, visited)
    && (visited == {} ==> stack == [start])
    && (visited != {} ==> start in visited)
    && Reached(children, [start], stack)
  }

  /** One step of `next` that does not stop keeps the search state; a step
      that stops on a report not yet visited stops on `start` if `start`
      satisfies `pred`. */
  lemma NextStep(children: seq<seq<nat>>, start: nat, pred: nat -> bool, stack: seq<nat>, visited: set<nat>)
    requires Graph(children) && stack != [] && Searching(children, start, pred, stack, visited)
    ensures var n, rest := stack[|stack| - 1], stack[..|stack| - 1];
      && n < |children|
      && (n in visited ==> Searching(children, start, pred, rest, visited))
      && (n !in visited && !pred(n) ==> Searching(children, start, pred, rest + Reversed(children[n]), visited + {n}))
      && (n !in visited && pred(start) ==> n == start)
      && Reachable(children, [start], n)
  {
    var n, rest := stack[|stack| - 1], stack[..|stack| - 1];
    var pushed := Reversed(children[n]);
    PopBelow(stack, |children|);
    PopReached(children, [start], stack);
    PopKeepsClosed(children, stack, visited, pushed);
    PopMembers(stack);
    if n !in visited && !pred(n) {
      PushBelow(children, rest, n, pushed);
      PushReached(children, [start], rest, n, pushed);
    }
  }

  /** The search starts with `start` alone on the stack. */
  lemma NextStarts(children: seq<seq<nat>>, start: nat, pred: nat -> bool)
    requires start < |children|
    ensures Searching(children, start, pred, [start], {})
  {
    SourceReachable(children, [start], start);
  }

  /** With the stack empty, no report reachable from `start` satisfies
      `pred`. */
  lemma NextEnds(children: seq<seq<nat>>, start: nat, pred: nat -> bool, visited: set<nat>)
    requires start < |children| && Searching(children, start, pred, [], visited)
    ensures forall v :: Reachable(children, [start], v) ==> !pred(v)
    ensures !pred(start)
  {
    forall v | Reachable(children, [start], v) ensures !pred(v) {
      ClosedHoldsReachable(children, [start], visited, v);
    }
  }

  /** `Report#next`: a depth-first search from `start`, pushing children in
      reverse so they are popped in order, that stops at the first report
      satisfying `pred`. It finds a report reachable from `start` that
      satisfies `pred`, and finds none only when no such report exists. */
  method Next(start: nat, children: seq<seq<nat>>, pred: nat -> bool) returns (found: Option<nat>)
    requires Graph(children) && start < |children|
    ensures found.Some? ==> pred(found.value) && Reachable(children, [start], found.value)
    ensures found.None? ==> forall v :: Reachable(children, [start], v) ==> !pred(v)
    ensures pred(start) ==> found == Some(start)
  {
    var stack: seq<nat> := [start];
    var visited: set<nat> := {};
    NextStarts(children, start, pred);
    while stack != []
      invariant Searching(children, start, pred, stack, visited)
      decreases |children| - |visited|, |stack|
    {
      NextStep(children, start, pred, stack, visited);
      var n := stack[|stack| - 1];
      stack := stack[..|stack| - 1];
      if n !in visited {
        AddBelow(visited, n, |children|);
        visited := visited + {n};
        if pred(n) {
          return Some(n);
        }
        stack := stack + Reversed(children[n]);
      }
    }
    NextEnds(children, start, pred, visited);
    return None;
  }

  /** The same elements, last first. */
  function Reversed(s: seq<nat>): (r: seq<nat>)
    ensures |r| == |s|
    ensures forall k :: 0 <= k < |s| ==> r[k] == s[|s| - 1 - k]
    ensures forall x :: x in r <==> x in s
  {
    if s == [] then [] else Reversed(s[1..]) + [s[0]]
  }
}

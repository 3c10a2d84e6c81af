/** The part of an X-Trace report that a logging call fills in: the label,
    made from a message whose `{}` placeholders are replaced by the call's
    variables, and the key/value pairs made from the variables left over. */
module XTraceReport {
  import opened Common
  import opened TextSplit

  /** Java's `vars[i] == null ? "null" : vars[i].toString()`. */
  function VarText(v: Value): (r: string)
    ensures v.Null? ==> r == "null"
  {
    ValueOf(v)
  }

  function VarTexts(vars: seq<Value>): (r: seq<string>)
    ensures |r| == |vars|
    ensures forall k :: 0 <= k < |vars| ==> r[k] == VarText(vars[k])
  {
    if vars == [] then [] else [VarText(vars[0])] + VarTexts(vars[1..])
  }

  /** The tokens of a message: commons-lang gives no tokens at all for the
      empty message, which labels and consumes exactly as the one empty token
      that `SplitOn` gives, so `SplitOn` stands for both. */
  function Tokens(message: string): (r: seq<string>)
    ensures |r| >= 1
  {
    SplitOn(message, PLACEHOLDER)
  }

  /** How many variables the label consumes: one per placeholder, as long as
      variables last. */
  function Consumed(message: Option<string>, vars: seq<Value>): (n: nat)
    ensures n <= |vars|
    ensures message.None? ==> n == 0
    ensures message.Some? ==> n == |vars| || n == |Tokens(message.value)| - 1
  {
    if message.None? then 0
    else
      var placeholders := |Tokens(message.value)| - 1;
      if placeholders < |vars| then placeholders else |vars|
  }

  /** The key/value pairs that `put` adds for the variables `vars`, taken two
      at a time: a pair whose key is null is skipped, and an odd last variable
      is dropped. */
  function PairsOf(vars: seq<Value>): seq<(string, string)>
    decreases |vars|
  {
    if |vars| < 2 then []
    else
      var rest := PairsOf(vars[2..]);
      if vars[0].Null? then rest else [(ValueOf(vars[0]), VarText(vars[1]))] + rest
  }

  /** Every variable in a key position (the first, third, fifth, ...) is
      non-null. */
  predicate KeysNonNull(vars: seq<Value>)
    decreases |vars|
  {
    vars == [] || (!vars[0].Null? && (|vars| < 2 || KeysNonNull(vars[2..])))
  }

  /** `ps` holds one pair per two variables of `vars`, in order: key from
      the first of the two, value from the second. */
  predicate Paired(ps: seq<(string, string)>, vars: seq<Value>)
  {
    && |ps| == |vars| / 2
    && forall k :: 0 <= k < |ps| ==>
      2 * k + 1 < |vars| && ps[k] == (ValueOf(vars[2 * k]), VarText(vars[2 * k + 1]))
  }

  /** With no null keys, every two variables make exactly one pair, in
      order, and a trailing odd variable makes none. */
  lemma {:induction false} PairsOfNonNull(vars: seq<Value>)
    requires KeysNonNull(vars)
    ensures Paired(PairsOf(vars), vars)
    decreases |vars|
  {
    if |vars| >= 2 {
      PairsOfNonNull(vars[2..]);
      PairedCons(vars, PairsOf(vars[2..]));
    }
  }

  lemma PairedCons(vars: seq<Value>, ps: seq<(string, string)>)
    requires |vars| >= 2 && Paired(ps, vars[2..])
    ensures Paired([(ValueOf(vars[0]), VarText(vars[1]))] + ps, vars)
  {
    var tail := vars[2..];
    var r := [(ValueOf(vars[0]), VarText(vars[1]))] + ps;
    HalfStep(|vars|);
    forall k | 1 <= k < |r|
      ensures 2 * k + 1 < |vars| && r[k] == (ValueOf(vars[2 * k]), VarText(vars[2 * k + 1]))
    {
      assert r[k] == ps[k - 1];
      assert tail[2 * (k - 1)] == vars[2 * k];
      assert tail[2 * (k - 1) + 1] == vars[2 * k + 1];
    }
  }

  lemma HalfStep(n: nat)
    requires n >= 2
    ensures n / 2 == (n - 2) / 2 + 1
  {
  }

  // ---------------------------------------------------------------------
  // The label as the source computes it, and as it is meant
  // ---------------------------------------------------------------------

  /** The label as the substitution loop builds it: the first token, then a
      variable and the next token for as long as both remain. Tokens beyond
      the last variable are never appended. */
  function LabelAsWritten(tokens: seq<string>, texts: seq<string>): string
    requires |tokens| >= 1
  {
    tokens[0] + TailAsWritten(tokens[1..], texts)
  }

  function TailAsWritten(tokens: seq<string>, texts: seq<string>): string
    decreases |tokens|
  {
    if tokens == [] || texts == [] then ""
    else texts[0] + tokens[0] + TailAsWritten(tokens[1..], texts[1..])
  }

  /** With a variable for every placeholder, the loop's label is the
      intended one. */
  lemma {:induction false} AsWrittenWithEnoughVars(tokens: seq<string>, texts: seq<string>)
    requires |tokens| >= 1 && |texts| >= |tokens| - 1
    ensures LabelAsWritten(tokens, texts) == Fill(tokens, texts)
  {
    TailWithEnoughVars(tokens[1..], texts);
  }

  lemma {:induction false} TailWithEnoughVars(tokens: seq<string>, texts: seq<string>)
    requires |texts| >= |tokens|
    ensures TailAsWritten(tokens, texts) == FillTail(tokens, texts)
    decreases |tokens|
  {
    if tokens != [] {
      TailWithEnoughVars(tokens[1..], texts[1..]);
    }
  }

  /** With fewer variables than placeholders the loop loses text: the
      message "x{}y" logged without variables is labelled "x", whereas the
      message itself is the evident label. */
  lemma LabelDropsTrailingText()
    ensures Tokens("x{}y") == ["x", "y"]
    ensures LabelAsWritten(Tokens("x{}y"), []) == "x"
    ensures Fill(Tokens("x{}y"), []) == "x{}y"
  {
    assert Join(["x", "y"], PLACEHOLDER) == "x{}y";
    SplitJoin(["x", "y"], PLACEHOLDER);
    FillNoVars("x{}y");
  }

  /** The label given to `message` with the variables `vars`. */
  function MessageLabel(message: string, vars: seq<Value>): string
  {
    Fill(Tokens(message), VarTexts(vars))
  }

  /** A message logged without variables is its own label. */
  lemma MessageWithoutVars(message: string)
    ensures MessageLabel(message, []) == message
  {
    FillNoVars(message);
  }

  // ---------------------------------------------------------------------
  // The report under construction
  // ---------------------------------------------------------------------

  /** The fields of the report builder that logging sets. The builder's
      parallel `key` and `value` lists always grow together, so they are held
      as one list of pairs. */
  class Report {
    var reportLabel: Option<string>
    var pairs: seq<(string, string)>

    constructor ()
      ensures reportLabel.None? && pairs == []
    {
      reportLabel := None;
      pairs := [];
    }

    /** `put`: a null key is ignored; a null value is stored as "null". */
    method Put(key: Value, value: Value)
      modifies this
      ensures reportLabel == old(reportLabel)
      ensures pairs == if key.Null? then old(pairs) else old(pairs) + [(ValueOf(key), VarText(value))]
    {
      if !key.Null? {
        pairs := pairs + [(ValueOf(key), VarText(value))];
      }
    }

    /** `setMessage`: a non-null message sets the label; every variable the
        label does not consume goes, two at a time, to `put`. Placeholders
        left without a variable stay in the label as `{}`. */
    method SetMessage(message: Option<string>, vars: seq<Value>)
      modifies this
      ensures reportLabel == if message.Some? then Some(MessageLabel(message.value, vars)) else old(reportLabel)
      ensures pairs == old(pairs) + PairsOf(vars[Consumed(message, vars)..])
    {
      var varsIndex := 0;
      if message.Some? {
        var text;
        text, varsIndex := Substitute(message.value, vars);
        reportLabel := Some(text);
      }
      PutPairs(vars, varsIndex);
    }

    /** The loop of `setMessage` that passes the variables left over, two at
        a time, to `put`. */
    method PutPairs(vars: seq<Value>, from: nat)
      requires from <= |vars|
      modifies this
      ensures reportLabel == old(reportLabel)
      ensures pairs == old(pairs) + PairsOf(vars[from..])
    {
      var varsIndex := from;
      while varsIndex + 1 < |vars|
        invariant from <= varsIndex <= |vars|
        invariant pairs + PairsOf(vars[varsIndex..]) == old(pairs) + PairsOf(vars[from..])
        invariant reportLabel == old(reportLabel)
      {
        assert vars[varsIndex..][2..] == vars[varsIndex + 2..];
        Put(vars[varsIndex], vars[varsIndex + 1]);
        varsIndex := varsIndex + 2;
      }
    }
  }

  /** The substitution loops of `setMessage`: the label of `message` and the
      number of variables it consumed. */
  method Substitute(message: string, vars: seq<Value>) returns (text: string, varsIndex: nat)
    ensures text == MessageLabel(message, vars)
    ensures varsIndex == Consumed(Some(message), vars)
  {
    var tokens := Tokens(message);
    ghost var texts := VarTexts(vars);
    text := tokens[0];
    varsIndex := 0;
    while varsIndex + 1 < |tokens| && varsIndex < |vars|
      invariant varsIndex < |tokens| && varsIndex <= |vars|
      invariant text + FillTail(tokens[varsIndex + 1..], texts[varsIndex..]) == Fill(tokens, texts)
    {
      FillVarStep(text, tokens, texts, varsIndex);
      text := text + VarText(vars[varsIndex]) + tokens[varsIndex + 1];
      varsIndex := varsIndex + 1;
    }
    var k := varsIndex;
    while k + 1 < |tokens|
      invariant varsIndex <= k < |tokens|
      invariant varsIndex < |vars| ==> k == varsIndex
      invariant text + FillTail(tokens[k + 1..], texts[varsIndex..]) == Fill(tokens, texts)
    {
      FillHoleStep(text, tokens, texts[varsIndex..], k);
      text := text + PLACEHOLDER + tokens[k + 1];
      k := k + 1;
    }
  }

  /** One turn of the first substitution loop: a variable and the token
      after it move from the unfilled tail to the label. */
  lemma FillVarStep(text: string, tokens: seq<string>, texts: seq<string>, i: nat)
    requires i + 1 < |tokens| && i < |texts|
    ensures text + FillTail(tokens[i + 1..], texts[i..])
      == (text + texts[i] + tokens[i + 1]) + FillTail(tokens[i + 2..], texts[i + 1..])
  {
    assert tokens[i + 1..][1..] == tokens[i + 2..];
    assert texts[i..][1..] == texts[i + 1..];
  }

  /** One turn of the second loop: with no variables left, a `{}` and the
      token after it move to the label. */
  lemma FillHoleStep(text: string, tokens: seq<string>, rest: seq<string>, k: nat)
    requires k + 1 < |tokens| && rest == []
    ensures text + FillTail(tokens[k + 1..], rest)
      == (text + PLACEHOLDER + tokens[k + 1]) + FillTail(tokens[k + 2..], rest)
  {
    assert tokens[k + 1..][1..] == tokens[k + 2..];
  }

  lemma ExampleTokens()
    ensures Tokens("My name is {}") == ["My name is ", ""]
  {
    assert Join(["My name is ", ""], PLACEHOLDER) == "My name is {}";
    FreeWithoutFirstChar("My name is ", PLACEHOLDER);
    FreeWithoutFirstChar("", PLACEHOLDER);
    SplitJoin(["My name is ", ""], PLACEHOLDER);
  }

  /** The example of the logging interface: `log("My name is {}", "Jon",
      "Age", 15)` is labelled "My name is Jon" and carries the pair
      ("Age", "15"). */
  lemma LoggingExample()
    ensures var vars := [Text("Jon"), Text("Age"), Integral(15)];
      && MessageLabel("My name is {}", vars) == "My name is Jon"
      && PairsOf(vars[Consumed(Some("My name is {}"), vars)..]) == [("Age", "15")]
  {
    ExampleLabel();
    ExamplePairs();
  }

  lemma ExampleLabel()
    ensures MessageLabel("My name is {}", [Text("Jon"), Text("Age"), Integral(15)]) == "My name is Jon"
  {
    ExampleTokens();
    FillExample(VarTexts([Text("Jon"), Text("Age"), Integral(15)]));
  }

  lemma FillExample(texts: seq<string>)
    requires |texts| >= 1 && texts[0] == "Jon"
    ensures Fill(["My name is ", ""], texts) == "My name is Jon"
  {
    assert FillTail([""], texts) == "Jon" + "" + FillTail([], texts[1..]);
  }

  lemma ExamplePairs()
    ensures var vars := [Text("Jon"), Text("Age"), Integral(15)];
      PairsOf(vars[Consumed(Some("My name is {}"), vars)..]) == [("Age", "15")]
  {
    var vars := [Text("Jon"), Text("Age"), Integral(15)];
    ExampleTokens();
    assert Consumed(Some("My name is {}"), vars) == 1;
    assert vars[1..] == [Text("Age"), Integral(15)];
    FifteenText();
    assert PairsOf([Text("Age"), Integral(15)]) == [("Age", "15")] + PairsOf([]);
  }

  lemma FifteenText()
    ensures VarText(Integral(15)) == "15"
  {
    assert NatToString(15) == NatToString(1) + [DigitChar(5)];
  }
}

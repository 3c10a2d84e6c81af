/** The small utilities that Pivot Tracing's client and agent share: the
    four-byte bag identifier built from a query id and an advice id, `{}`
    substitution into LET and WHERE expressions, and the printed form of a
    tuple. */
module PivotTracingUtils {
  import opened Common
  import opened TextSplit

  type Byte = b: int | 0 <= b < 256

  /** The values of a Java `short`. */
  predicate IsShort(v: int) { -0x8000 <= v < 0x8000 }

  /** `ByteBuffer.putShort`: two's complement, high byte first. */
  function ShortBytes(v: int): (r: seq<Byte>)
    requires IsShort(v)
    ensures |r| == 2
  {
    var u := if v < 0 then v + 0x1_0000 else v;
    [u / 256, u % 256]
  }

  /** `ByteBuffer.getShort(at)`: nothing (an exception in Java) when fewer
      than two bytes are left at `at`. */
  function ReadShort(b: seq<Byte>, at: nat): (r: Option<int>)
    ensures r.Some? <==> at + 2 <= |b|
    ensures r.Some? ==> IsShort(r.value)
    ensures r.Some? ==> ShortBytes(r.value) == b[at..at + 2]
  {
    if at + 2 > |b| then None
    else
      var u := (b[at] as int) * 256 + (b[at + 1] as int);
      var v := if u >= 0x8000 then u - 0x1_0000 else u;
      Some(v)
  }

  /** `bagId`: the query id's two bytes followed by the advice id's. */
  function BagId(queryId: int, adviceId: int): (r: seq<Byte>)
    requires IsShort(queryId) && IsShort(adviceId)
    ensures |r| == 4
    ensures r[..2] == ShortBytes(queryId) && r[2..] == ShortBytes(adviceId)
  {
    ShortBytes(queryId) + ShortBytes(adviceId)
  }

  /** `queryId`: the short at the front of a bag id. */
  function QueryId(bagId: seq<Byte>): (r: Option<int>)
    ensures r.Some? <==> |bagId| >= 2
  {
    ReadShort(bagId, 0)
  }

  /** `adviceId`: the short at byte 2 of a bag id. */
  function AdviceId(bagId: seq<Byte>): (r: Option<int>)
    ensures r.Some? <==> |bagId| >= 4
  {
    ReadShort(bagId, 2)
  }

  /** Two distinct byte pairs never encode the same short: a short is
      recovered from its bytes. */
  lemma ShortRoundTrip(v: int)
    requires IsShort(v)
    ensures ReadShort(ShortBytes(v), 0) == Some(v)
  {
  }

  /** Both ids are recovered from a bag id. */
  lemma {:induction false} BagIdRoundTrip(q: int, a: int)
    requires IsShort(q) && IsShort(a)
    ensures QueryId(BagId(q, a)) == Some(q)
    ensures AdviceId(BagId(q, a)) == Some(a)
  {
    var b := BagId(q, a);
    ShortRoundTrip(q);
    ShortRoundTrip(a);
    assert b[0..2] == ShortBytes(q);
    assert b[2..4] == ShortBytes(a);
  }

  /** Every four-byte key is the bag id of the ids decoded from it, so bag
      ids and (query id, advice id) pairs are in one-to-one correspondence. */
  lemma BagIdFromIds(b: seq<Byte>)
    requires |b| == 4
    ensures BagId(QueryId(b).value, AdviceId(b).value) == b
  {
    assert b == b[0..2] + b[2..4];
  }

  // ---------------------------------------------------------------------
  // replace
  // ---------------------------------------------------------------------

  /** `s.replaceFirst("\\{\\}", r)` with `r` taken literally: the first `{}`
      of `s` becomes `r`; without a `{}`, `s` is unchanged. */
  function ReplaceFirst(s: string, r: string): (t: string)
  {
    var i := FindFrom(s, PLACEHOLDER, 0);
    if i < 0 then s else s[..i] + r + s[i + 2..]
  }

  /** Successive `ReplaceFirst`s, one per replacement variable, in order. */
  function ReplaceEach(s: string, vars: seq<string>): string
    decreases |vars|
  {
    if vars == [] then s else ReplaceEach(ReplaceFirst(s, vars[0]), vars[1..])
  }

  /** `replace`: the loop over the replacement variables. */
  method Replace(s: string, vars: seq<string>) returns (t: string)
    ensures t == ReplaceEach(s, vars)
  {
    t := s;
    for i := 0 to |vars|
      invariant ReplaceEach(t, vars[i..]) == ReplaceEach(s, vars)
    {
      assert vars[i..][1..] == vars[i + 1..];
      t := ReplaceFirst(t, vars[i]);
    }
  }

  /** A replacement that cannot form a new `{}` with its neighbours. */
  predicate PlainText(v: string)
  {
    v != [] && '{' !in v && '}' !in v
  }

  /** No `{}` starts inside a prefix that is free of it and does not end
      in '{'. */
  lemma PrefixClear(p: string, q: string)
    requires Free(p, PLACEHOLDER) && (p == [] || p[|p| - 1] != '{')
    ensures forall j :: 0 <= j < |p| ==> !OccursAt(p + q, PLACEHOLDER, j)
  {
    var s := p + q;
    forall j | 0 <= j < |p| ensures !OccursAt(s, PLACEHOLDER, j) {
      if j + 2 <= |p| {
        assert !OccursAt(p, PLACEHOLDER, j);
        assert s[j..j + 2] == p[j..j + 2];
      } else if j + 2 <= |s| {
        assert s[j..j + 2][0] == p[|p| - 1];
      }
    }
  }

  /** An occurrence in `q` is an occurrence in `p + q`, shifted by `|p|`. */
  lemma ShiftOccurs(p: string, q: string, k: nat)
    ensures OccursAt(p + q, PLACEHOLDER, |p| + k) == OccursAt(q, PLACEHOLDER, k)
  {
    var s := p + q;
    if k + 2 <= |q| {
      assert s[|p| + k..|p| + k + 2] == q[k..k + 2];
    }
  }

  /** Text with no `{}` that does not end in '{' can be put in front of a
      template without changing where, relative to the template, the first
      `{}` is. */
  lemma FindBehind(p: string, q: string)
    requires Free(p, PLACEHOLDER) && (p == [] || p[|p| - 1] != '{')
    ensures var iq := FindFrom(q, PLACEHOLDER, 0);
      FindFrom(p + q, PLACEHOLDER, 0) == if iq < 0 then -1 else |p| + iq
  {
    var s := p + q;
    var iq := FindFrom(q, PLACEHOLDER, 0);
    PrefixClear(p, q);
    if iq >= 0 {
      ShiftOccurs(p, q, iq);
      forall j | 0 <= j < |p| + iq ensures !OccursAt(s, PLACEHOLDER, j) {
        if j >= |p| { ShiftOccurs(p, q, j - |p|); }
      }
      FindIs(s, PLACEHOLDER, |p| + iq);
    } else {
      forall j | 0 <= j ensures !OccursAt(s, PLACEHOLDER, j) {
        if j >= |p| { ShiftOccurs(p, q, j - |p|); }
      }
      FindNone(s, PLACEHOLDER);
    }
  }

  lemma ReplaceFirstBehind(p: string, q: string, v: string)
    requires Free(p, PLACEHOLDER) && (p == [] || p[|p| - 1] != '{')
    ensures ReplaceFirst(p + q, v) == p + ReplaceFirst(q, v)
  {
    FindBehind(p, q);
    var iq := FindFrom(q, PLACEHOLDER, 0);
    if iq >= 0 {
      var s := p + q;
      assert ReplaceFirst(s, v) == s[..|p| + iq] + v + s[|p| + iq + 2..];
      assert ReplaceFirst(q, v) == q[..iq] + v + q[iq + 2..];
      SplitBehind(p, q, iq, iq + 2);
      RegroupSplice(p, q[..iq], v, q[iq + 2..]);
    }
  }

  lemma RegroupSplice<T>(a: seq<T>, b: seq<T>, c: seq<T>, d: seq<T>)
    ensures (a + b) + c + d == a + (b + c + d)
  {
  }

  /** Cutting `p + q` at positions past `p` cuts `q`. */
  lemma SplitBehind<T>(p: seq<T>, q: seq<T>, i: nat, k: nat)
    requires i <= k <= |q|
    ensures (p + q)[..|p| + i] == p + q[..i]
    ensures (p + q)[|p| + k..] == q[k..]
  {
  }

  lemma {:induction false} ReplaceEachBehind(p: string, q: string, vars: seq<string>)
    requires Free(p, PLACEHOLDER) && (p == [] || p[|p| - 1] != '{')
    ensures ReplaceEach(p + q, vars) == p + ReplaceEach(q, vars)
    decreases |vars|
  {
    if vars != [] {
      ReplaceFirstBehind(p, q, vars[0]);
      ReplaceEachBehind(p, ReplaceFirst(q, vars[0]), vars[1..]);
    }
  }

  /** A token of the template followed by a plain replacement neither
      contains `{}` nor ends in '{'. */
  lemma TokenThenPlain(t: string, v: string)
    requires Free(t, PLACEHOLDER) && PlainText(v)
    ensures Free(t + v, PLACEHOLDER) && (t + v)[|t + v| - 1] != '{'
  {
    var p := t + v;
    forall j | 0 <= j < |p| ensures !OccursAt(p, PLACEHOLDER, j) {
      if j + 2 <= |t| {
        assert !OccursAt(t, PLACEHOLDER, j);
        assert p[j..j + 2] == t[j..j + 2];
      } else if j + 2 <= |p| {
        assert p[j + 1] == v[j + 1 - |t|];
        assert p[j..j + 2][1] == p[j + 1];
      }
    }
    assert p[|p| - 1] == v[|v| - 1];
  }

  /** With plain replacement variables, `replace` is the placeholder filling
      that the X-Trace report builder performs: the i-th `{}` of the template
      becomes the i-th variable, surplus variables are ignored, and surplus
      `{}` stay in the text. */
  lemma {:induction false} ReplaceFills(s: string, vars: seq<string>)
    requires forall k :: 0 <= k < |vars| ==> PlainText(vars[k])
    ensures ReplaceEach(s, vars) == Fill(SplitOn(s, PLACEHOLDER), vars)
    decreases |vars|, 1
  {
    if vars == [] {
      FillNoVars(s);
    } else if FindFrom(s, PLACEHOLDER, 0) < 0 {
      ReplaceFills(s, vars[1..]);
    } else {
      ReplaceFillsAtPlaceholder(s, vars);
    }
  }

  lemma {:induction false} ReplaceFillsAtPlaceholder(s: string, vars: seq<string>)
    requires forall k :: 0 <= k < |vars| ==> PlainText(vars[k])
    requires vars != [] && FindFrom(s, PLACEHOLDER, 0) >= 0
    ensures ReplaceEach(s, vars) == Fill(SplitOn(s, PLACEHOLDER), vars)
    decreases |vars|, 0
  {
    var i := FindFrom(s, PLACEHOLDER, 0);
    var tokens := SplitOn(s, PLACEHOLDER);
    var rest := s[i + 2..];
    var p := s[..i] + vars[0];
    var tail := SplitOn(rest, PLACEHOLDER);
    assert tokens == [s[..i]] + tail;
    assert tokens[1..] == tail && tokens[0] == s[..i];
    PrefixBeforeFirstIsFree(s, PLACEHOLDER);
    TokenThenPlain(s[..i], vars[0]);
    assert ReplaceFirst(s, vars[0]) == p + rest;
    ReplaceEachBehind(p, rest, vars[1..]);
    ReplaceFills(rest, vars[1..]);
    var f := Fill(tail, vars[1..]);
    assert ReplaceEach(s, vars) == p + f;
    var ft := FillTail(tail[1..], vars[1..]);
    assert f == tail[0] + ft;
    assert FillTail(tokens[1..], vars) == vars[0] + tail[0] + ft;
    assert Fill(tokens, vars) == s[..i] + (vars[0] + tail[0] + ft);
    Regroup(s[..i], vars[0], tail[0], ft);
  }

  lemma Regroup(a: string, b: string, c: string, d: string)
    ensures (a + b) + (c + d) == a + (b + c + d)
  {
  }

  // ---------------------------------------------------------------------
  // tupleString
  // ---------------------------------------------------------------------

  const ELEMENT_SEPARATOR: string := ", "

  /** `StringUtils.join` prints a null element as nothing at all. */
  function JoinedText(v: Value): string
  {
    if v.Null? then "" else ValueOf(v)
  }

  function Texts(tuple: seq<Value>): (r: seq<string>)
    ensures |r| == |tuple|
    ensures forall k :: 0 <= k < |tuple| ==> r[k] == JoinedText(tuple[k])
  {
    if tuple == [] then [] else [JoinedText(tuple[0])] + Texts(tuple[1..])
  }

  /** `tupleString`: the elements' texts separated by ", " inside "<" and ">". */
  function TupleString(tuple: seq<Value>): (r: string)
    ensures |r| >= 2 && r[0] == '<' && r[|r| - 1] == '>'
  {
    "<" + Join(Texts(tuple), ELEMENT_SEPARATOR) + ">"
  }

  /** A non-empty tuple whose element texts contain no ", " can be read back
      from its printed form: the text between the angle brackets splits at
      ", " into exactly the element texts. */
  lemma TupleStringReadable(tuple: seq<Value>)
    requires |tuple| >= 1
    requires forall k :: 0 <= k < |tuple| ==> Free(JoinedText(tuple[k]), ELEMENT_SEPARATOR)
    ensures var r := TupleString(tuple); SplitOn(r[1..|r| - 1], ELEMENT_SEPARATOR) == Texts(tuple)
  {
    var r := TupleString(tuple);
    assert r[1..|r| - 1] == Join(Texts(tuple), ELEMENT_SEPARATOR);
    SplitJoin(Texts(tuple), ELEMENT_SEPARATOR);
  }
}

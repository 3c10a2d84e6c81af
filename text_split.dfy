/** Splitting text at a separator, joining it back, and the `{}` placeholder
    substitution that both the X-Trace report builder and the Pivot Tracing
    utilities perform. Splitting follows commons-lang's
    `splitByWholeSeparatorPreserveAllTokens`: every separator ends a token, so
    adjacent, leading and trailing separators produce empty tokens. */
module TextSplit {
  import opened Common

  const PLACEHOLDER: string := "{}"

  /** `sep` does not occur anywhere in `p`. */
  predicate Free(p: string, sep: string)
  {
    forall j :: 0 <= j < |p| ==> !OccursAt(p, sep, j)
  }

  /** Text without the separator's first character is free of it. */
  lemma FreeWithoutFirstChar(p: string, sep: string)
    requires |sep| > 0 && sep[0] !in p
    ensures Free(p, sep)
  {
    forall j | 0 <= j < |p| ensures !OccursAt(p, sep, j) {
      assert p[j] != sep[0];
      if j + |sep| <= |p| {
        assert p[j..j + |sep|][0] == p[j];
      }
    }
  }

  /** The first position at or after `from` where `sep` occurs, or -1. */
  function FindFrom(s: string, sep: string, from: nat): (r: int)
    requires |sep| > 0 && from <= |s|
    ensures r == -1 || (from <= r && OccursAt(s, sep, r))
    ensures forall j :: from <= j && (r < 0 || j < r) ==> !OccursAt(s, sep, j)
    decreases |s| - from
  {
    if from + |sep| > |s| then -1
    else if s[from..from + |sep|] == sep then from
    else FindFrom(s, sep, from + 1)
  }

  /** A first occurrence is what `FindFrom` finds. */
  lemma FindIs(s: string, sep: string, k: nat)
    requires |sep| > 0 && OccursAt(s, sep, k)
    requires forall j :: 0 <= j < k ==> !OccursAt(s, sep, j)
    ensures FindFrom(s, sep, 0) == k
  {
  }

  /** Where `sep` never occurs, `FindFrom` finds nothing. */
  lemma FindNone(s: string, sep: string)
    requires |sep| > 0
    requires forall j :: 0 <= j ==> !OccursAt(s, sep, j)
    ensures FindFrom(s, sep, 0) == -1
  {
  }

  /** `s` cut at every occurrence of `sep`, scanning left to right. */
  function SplitOn(s: string, sep: string): (r: seq<string>)
    requires |sep| > 0
    ensures |r| >= 1
    decreases |s|
  {
    var i := FindFrom(s, sep, 0);
    if i < 0 then [s] else [s[..i]] + SplitOn(s[i + |sep|..], sep)
  }

  /** The text before the first occurrence of `sep` is free of it. */
  lemma PrefixBeforeFirstIsFree(s: string, sep: string)
    requires |sep| > 0
    ensures var i := FindFrom(s, sep, 0); i >= 0 ==> Free(s[..i], sep)
  {
    var i := FindFrom(s, sep, 0);
    if i >= 0 {
      forall j | 0 <= j < i ensures !OccursAt(s[..i], sep, j) {
        assert !OccursAt(s, sep, j);
        if j + |sep| <= i {
          assert s[..i][j..j + |sep|] == s[j..j + |sep|];
        }
      }
    }
  }

  /** No token of a split contains the separator. */
  lemma {:induction false} SplitTokensFree(s: string, sep: string)
    requires |sep| > 0
    ensures forall k :: 0 <= k < |SplitOn(s, sep)| ==> Free(SplitOn(s, sep)[k], sep)
    decreases |s|
  {
    var i := FindFrom(s, sep, 0);
    if i >= 0 {
      PrefixBeforeFirstIsFree(s, sep);
      SplitTokensFree(s[i + |sep|..], sep);
    } else {
      assert forall j :: 0 <= j < |s| ==> !OccursAt(s, sep, j);
    }
  }

  /** The split with its trailing empty tokens removed, as Java's
      `String.split` and Ruby's `String#split` return it. */
  function DropTrailingEmpty(ws: seq<string>): (r: seq<string>)
    ensures |r| <= |ws| && r == ws[..|r|]
    ensures r != [] ==> r[|r| - 1] != ""
    ensures forall k :: |r| <= k < |ws| ==> ws[k] == ""
  {
    if ws != [] && ws[|ws| - 1] == "" then DropTrailingEmpty(ws[..|ws| - 1]) else ws
  }

  /** The tokens glued back together with `sep` between neighbours, as
      JavaScript's `Array.prototype.join(sep)` does. */
  function Join(parts: seq<string>, sep: string): (r: string)
    ensures |parts| == 1 ==> r == parts[0]
    ensures parts == [] ==> r == ""
  {
    if |parts| == 0 then ""
    else if |parts| == 1 then parts[0]
    else parts[0] + sep + Join(parts[1..], sep)
  }

  /** Joining the tokens of a split gives back the original text. */
  lemma {:induction false} JoinSplit(s: string, sep: string)
    requires |sep| > 0
    ensures Join(SplitOn(s, sep), sep) == s
    decreases |s|
  {
    var i := FindFrom(s, sep, 0);
    if i >= 0 {
      var rest := s[i + |sep|..];
      var tail := SplitOn(rest, sep);
      JoinSplit(rest, sep);
      var parts := SplitOn(s, sep);
      assert parts == [s[..i]] + tail;
      assert parts[1..] == tail;
      calc {
        Join(parts, sep);
        s[..i] + sep + Join(tail, sep);
        s[..i] + sep + rest;
        { assert s[i..i + |sep|] == sep; }
        s;
      }
    }
  }

  /** With a two-character separator whose characters differ, the first
      occurrence of `sep` in `p + sep + q` is right after `p` when `p` is free
      of `sep`. */
  lemma FirstAfterFreePrefix(p: string, sep: string, q: string)
    requires |sep| == 2 && sep[0] != sep[1] && Free(p, sep)
    ensures FindFrom(p + sep + q, sep, 0) == |p|
  {
    var s := p + sep + q;
    assert OccursAt(s, sep, |p|) by { assert s[|p|..|p| + 2] == sep; }
    forall j | 0 <= j < |p| ensures !OccursAt(s, sep, j) {
      if j + 2 <= |p| {
        assert !OccursAt(p, sep, j);
        assert s[j..j + 2] == p[j..j + 2];
      } else {
        assert s[j..j + 2][1] == sep[0];
      }
    }
  }

  /** Splitting undoes joining, provided no token contains the separator. */
  lemma {:induction false} SplitJoin(parts: seq<string>, sep: string)
    requires |parts| >= 1 && |sep| == 2 && sep[0] != sep[1]
    requires forall k :: 0 <= k < |parts| ==> Free(parts[k], sep)
    ensures SplitOn(Join(parts, sep), sep) == parts
    decreases |parts|
  {
    if |parts| == 1 {
      assert Free(parts[0], sep);
    } else {
      var p, tail := parts[0], Join(parts[1..], sep);
      FirstAfterFreePrefix(p, sep, tail);
      var s := p + sep + tail;
      assert s[..|p|] == p;
      assert s[|p| + 2..] == tail;
      SplitJoin(parts[1..], sep);
      assert parts == [p] + parts[1..];
    }
  }

  /** The intended meaning of `{}` substitution over the tokens of a message:
      the i-th placeholder is replaced by the i-th variable, and placeholders
      left over when the variables run out stay in the text as `{}`. */
  function Fill(tokens: seq<string>, vars: seq<string>): string
    requires |tokens| >= 1
  {
    tokens[0] + FillTail(tokens[1..], vars)
  }

  /** The placeholders in front of each of `tokens`, filled from `vars`. */
  function FillTail(tokens: seq<string>, vars: seq<string>): string
    decreases |tokens|
  {
    if tokens == [] then ""
    else if vars == [] then PLACEHOLDER + tokens[0] + FillTail(tokens[1..], [])
    else vars[0] + tokens[0] + FillTail(tokens[1..], vars[1..])
  }

  /** Without variables, every placeholder stays: filling is joining. */
  lemma {:induction false} FillWithoutVars(tokens: seq<string>)
    requires |tokens| >= 1
    ensures Fill(tokens, []) == Join(tokens, PLACEHOLDER)
    decreases |tokens|
  {
    if |tokens| > 1 {
      FillWithoutVars(tokens[1..]);
      assert tokens[1..][1..] == tokens[2..];
    }
  }

  /** Filling the placeholders of a message with no variables gives back the
      message unchanged. */
  lemma FillNoVars(s: string)
    ensures Fill(SplitOn(s, PLACEHOLDER), []) == s
  {
    FillWithoutVars(SplitOn(s, PLACEHOLDER));
    JoinSplit(s, PLACEHOLDER);
  }
}

/** Shared vocabulary for the whole model: optional and failing results, ASCII
    case mapping, decimal rendering of integers, Java's 64-bit `long`
    arithmetic, and the dynamically typed `Object` values that Pivot Tracing
    passes around in tuples. */
module Common {

  datatype Option<T> = None | Some(value: T)

  /** A value or an error; `:-` passes the error on. */
  datatype Result<T, E> = Ok(value: T) | Err(error: E)
  {
    predicate IsFailure() { Err? }

    function PropagateFailure<U>(): Result<U, E>
      requires Err?
    {
      Err(error)
    }

    function Extract(): T
      requires Ok?
    {
      value
    }
  }

  // ---------------------------------------------------------------------
  // Characters and strings
  // ---------------------------------------------------------------------

  predicate IsAsciiUpper(c: char) { 'A' <= c <= 'Z' }
  predicate IsAsciiLower(c: char) { 'a' <= c <= 'z' }
  predicate IsDigit(c: char) { '0' <= c <= '9' }

  function LowerChar(c: char): (r: char)
    ensures IsAsciiUpper(c) ==> IsAsciiLower(r)
    ensures !IsAsciiUpper(c) ==> r == c
  {
    if IsAsciiUpper(c) then (c as int + 32) as char else c
  }

  function UpperChar(c: char): (r: char)
    ensures IsAsciiLower(c) ==> IsAsciiUpper(r)
    ensures !IsAsciiLower(c) ==> r == c
  {
    if IsAsciiLower(c) then (c as int - 32) as char else c
  }

  /** Ruby's `downcase` and Java's `toLowerCase`, restricted to ASCII letters. */
  function ToLower(s: string): (r: string)
    ensures |r| == |s|
    ensures forall i :: 0 <= i < |s| ==> r[i] == LowerChar(s[i])
  {
    if s == [] then [] else [LowerChar(s[0])] + ToLower(s[1..])
  }

  /** Java's `toUpperCase`, restricted to ASCII letters. */
  function ToUpper(s: string): (r: string)
    ensures |r| == |s|
    ensures forall i :: 0 <= i < |s| ==> r[i] == UpperChar(s[i])
  {
    if s == [] then [] else [UpperChar(s[0])] + ToUpper(s[1..])
  }

  /** Java's `String.indexOf(char)`: the first position of `c`, or -1. */
  function IndexOf(s: string, c: char): (r: int)
    ensures -1 <= r < |s|
    ensures r == -1 <==> c !in s
    ensures r >= 0 ==> s[r] == c && c !in s[..r]
    ensures r >= 0 ==> forall j :: 0 <= j < r ==> s[j] != c
  {
    if s == [] then -1
    else if s[0] == c then 0
    else
      var k := IndexOf(s[1..], c);
      if k < 0 then -1
      else
        assert s[..k + 1] == [s[0]] + s[1..][..k];
        k + 1
  }

  /** The first occurrence of `c` is at `k` when `s[k] == c` and no earlier
      character is `c`. */
  lemma IndexOfAt(s: string, c: char, k: nat)
    requires k < |s| && s[k] == c
    requires forall j :: 0 <= j < k ==> s[j] != c
    ensures IndexOf(s, c) == k
  {
  }

  /** True when `sep` occurs in `s` at position `i`. */
  predicate OccursAt(s: string, sep: string, i: int)
  {
    0 <= i && i + |sep| <= |s| && s[i..i + |sep|] == sep
  }

  // ---------------------------------------------------------------------
  // Decimal rendering
  // ---------------------------------------------------------------------

  function DigitChar(d: nat): (c: char)
    requires d < 10
    ensures IsDigit(c)
  {
    ('0' as int + d) as char
  }

  /** The decimal text of a natural number, without leading zeros. */
  function NatToString(n: nat): (r: string)
    ensures |r| >= 1
    ensures forall i :: 0 <= i < |r| ==> IsDigit(r[i])
    decreases n
  {
    if n < 10 then [DigitChar(n)] else NatToString(n / 10) + [DigitChar(n % 10)]
  }

  /** Java's `Long.toString` / JavaScript's `String(n)` for an integer. */
  function IntToString(i: int): (r: string)
    ensures |r| >= 1
    ensures i < 0 <==> r[0] == '-'
  {
    if i < 0 then "-" + NatToString(-i) else NatToString(i)
  }

  // ---------------------------------------------------------------------
  // Java long arithmetic
  // ---------------------------------------------------------------------

  const LONG_MIN: int := -0x8000_0000_0000_0000
  const LONG_MAX: int := 0x7FFF_FFFF_FFFF_FFFF
  const TWO_64: int := 0x1_0000_0000_0000_0000

  predicate InLong(x: int) { LONG_MIN <= x <= LONG_MAX }

  /** Two's-complement wrap-around of Java's `long` operations. */
  function Wrap64(x: int): (r: int)
    ensures InLong(r)
    ensures InLong(x) ==> r == x
    ensures (r - x) % TWO_64 == 0
  {
    var m := (x - LONG_MIN) % TWO_64;
    m + LONG_MIN
  }

  // ---------------------------------------------------------------------
  // Looking names up in a list
  // ---------------------------------------------------------------------

  /** Java's `List.indexOf`: the first position of `x`, or -1. */
  function FirstIndex<T(==)>(s: seq<T>, x: T): (r: int)
    ensures -1 <= r < |s|
    ensures r == -1 <==> x !in s
    ensures r >= 0 ==> s[r] == x && x !in s[..r]
  {
    if s == [] then -1
    else if s[0] == x then 0
    else
      var k := FirstIndex(s[1..], x);
      if k < 0 then -1
      else
        assert s[..k + 1] == [s[0]] + s[1..][..k];
        k + 1
  }

  /** The export positions of the observed names, or the first observed
      name that is not known. */
  function Resolve(known: seq<string>, names: seq<string>): (r: Result<seq<nat>, string>)
    decreases |names|
  {
    if names == [] then Ok([])
    else
      match Resolve(known, names[..|names| - 1])
      case Err(name) => Err(name)
      case Ok(ps) =>
        var k := FirstIndex(known, names[|names| - 1]);
        if k < 0 then Err(names[|names| - 1]) else Ok(ps + [k])
  }

  /** Resolving succeeds exactly when every name is known; each position
      then names that very variable, and a failure names an observed name
      that is not known. */
  lemma {:induction false} ResolveFinds(known: seq<string>, names: seq<string>)
    ensures Resolve(known, names).Ok? <==> forall i :: 0 <= i < |names| ==> names[i] in known
    ensures Resolve(known, names).Ok? ==>
              var ps := Resolve(known, names).value;
              |ps| == |names| && forall i :: 0 <= i < |ps| ==> ps[i] < |known| && known[ps[i]] == names[i]
    ensures Resolve(known, names).Err? ==>
              Resolve(known, names).error in names && Resolve(known, names).error !in known
    decreases |names|
  {
    if names != [] {
      var init := names[..|names| - 1];
      ResolveFinds(known, init);
      assert forall i :: 0 <= i < |init| ==> init[i] == names[i];
    }
  }

  /** Once a prefix of the names fails to resolve, so do all of them. */
  lemma {:induction false} ResolvePrefixFails(known: seq<string>, names: seq<string>, n: nat)
    requires n <= |names| && Resolve(known, names[..n]).Err?
    ensures Resolve(known, names) == Resolve(known, names[..n])
    decreases |names| - n
  {
    if n < |names| {
      assert names[..n + 1][..n] == names[..n];
      ResolvePrefixFails(known, names, n + 1);
    } else {
      assert names[..n] == names;
    }
  }

  /** Resolved positions lie within the exports. */
  lemma ResolvedWithin(known: seq<string>, names: seq<string>)
    requires Resolve(known, names).Ok?
    ensures forall i :: 0 <= i < |Resolve(known, names).value| ==> Resolve(known, names).value[i] < |known|
  {
    ResolveFinds(known, names);
  }

  // ---------------------------------------------------------------------
  // Java Object values carried in Pivot Tracing tuples
  // ---------------------------------------------------------------------

  /** A value held in an `Object[]` tuple: `null`, an integral boxed number
      (Long, Integer, ...), a floating-point boxed number together with the text
      Java prints for it, a String, or any other object together with the text
      its `toString` returns. */
  datatype Value =
    | Null
    | Integral(n: int)
    | Floating(x: real, printed: string)
    | Text(s: string)
    | Opaque(printed: string)

  /** Java's `String.valueOf(Object)`. */
  function ValueOf(v: Value): (r: string)
    ensures v.Null? ==> r == "null"
    ensures v.Text? ==> r == v.s
  {
    match v
    case Null => "null"
    case Integral(n) => IntToString(n)
    case Floating(_, p) => p
    case Text(s) => s
    case Opaque(p) => p
  }
}

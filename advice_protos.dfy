/** The two enumerations of the advice protocol that the query code names by
    text: the aggregation functions of a GROUP BY and the filters of a filtered
    bag. `ValueOf` is Java's `Enum.valueOf`: exact, case-sensitive. */
module AdviceProtos {
  import opened Common

  datatype Agg = SUM | COUNT | MAX | MIN

  datatype Filter = FIRST | MOSTRECENT

  function AggName(a: Agg): string
  {
    match a
    case SUM => "SUM"
    case COUNT => "COUNT"
    case MAX => "MAX"
    case MIN => "MIN"
  }

  function FilterName(f: Filter): string
  {
    match f
    case FIRST => "FIRST"
    case MOSTRECENT => "MOSTRECENT"
  }

  /** `Agg.valueOf(name)`: the constant whose name is exactly `name`, and
      nothing (an exception in Java) for any other text. */
  function AggValueOf(name: string): (r: Option<Agg>)
    ensures forall a :: r == Some(a) <==> name == AggName(a)
  {
    if name == "SUM" then Some(SUM)
    else if name == "COUNT" then Some(COUNT)
    else if name == "MAX" then Some(MAX)
    else if name == "MIN" then Some(MIN)
    else None
  }

  /** `Filter.valueOf(name)`. */
  function FilterValueOf(name: string): (r: Option<Filter>)
    ensures forall f :: r == Some(f) <==> name == FilterName(f)
  {
    if name == "FIRST" then Some(FIRST)
    else if name == "MOSTRECENT" then Some(MOSTRECENT)
    else None
  }
}

/**
 The data types of the SQL engine's expression nodes. A constant node carries one of
 these as its type tag; the insert path reads it to decide which column types the
 constant may be stored in.
 */
module NodeEnum {
  import opened Wrappers

  datatype DataType =
    | Bool | Int16 | Int32 | Int64 | Float | Double | Varchar | Date | Timestamp
    | List | Hour | Minute | Second | Day | Map | Iterator | Int8Ptr | Row
    | Void | Null

  /** The enumerator's value: consecutive from 0 up to `Row`, then 100 and 101. */
  function Code(t: DataType): (c: nat)
    ensures c <= 17 || c == 100 || c == 101
    ensures (c == 100 <==> t == Void) && (c == 101 <==> t == Null)
  {
    match t
    case Bool => 0
    case Int16 => 1
    case Int32 => 2
    case Int64 => 3
    case Float => 4
    case Double => 5
    case Varchar => 6
    case Date => 7
    case Timestamp => 8
    case List => 9
    case Hour => 10
    case Minute => 11
    case Second => 12
    case Day => 13
    case Map => 14
    case Iterator => 15
    case Int8Ptr => 16
    case Row => 17
    case Void => 100
    case Null => 101
  }

  /** The enumerator with a given value, if there is one. */
  function FromCode(c: int): (r: Option<DataType>)
    ensures r.Some? <==> 0 <= c <= 17 || c == 100 || c == 101
    ensures r.Some? ==> Code(r.value) == c
  {
    if c == 0 then Some(Bool)
    else if c == 1 then Some(Int16)
    else if c == 2 then Some(Int32)
    else if c == 3 then Some(Int64)
    else if c == 4 then Some(Float)
    else if c == 5 then Some(Double)
    else if c == 6 then Some(Varchar)
    else if c == 7 then Some(Date)
    else if c == 8 then Some(Timestamp)
    else if c == 9 then Some(List)
    else if c == 10 then Some(Hour)
    else if c == 11 then Some(Minute)
    else if c == 12 then Some(Second)
    else if c == 13 then Some(Day)
    else if c == 14 then Some(Map)
    else if c == 15 then Some(Iterator)
    else if c == 16 then Some(Int8Ptr)
    else if c == 17 then Some(Row)
    else if c == 100 then Some(Void)
    else if c == 101 then Some(Null)
    else None
  }

  /** Distinct enumerators have distinct values: decoding a type's value gives the type back. */
  lemma CodeRoundTrip(t: DataType)
    ensures FromCode(Code(t)) == Some(t)
  {
  }
}

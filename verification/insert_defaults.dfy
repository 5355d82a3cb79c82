/**
 How the SQL router prepares an INSERT statement: it coerces each constant of the value
 list to its column's type, builds a map from column position to default value with the
 arity, NOT NULL and placeholder rules, and maps an explicit column list to table positions.
 */
module InsertDefaults {
  import opened Wrappers
  import opened Bytes
  import opened DateCodec
  import N = NodeEnum
  import T = TableSchema

  // ---------------------------------------------------------------- constants

  /** The payload of a constant. Floating point payloads are reals; single-precision rounding is not modelled. */
  datatype Value = Num(n: int) | Text(s: string) | Real(r: real) | NoValue

  /** A constant of an INSERT value list, or a `?` placeholder bound later. */
  datatype ConstNode = Placeholder | Const(ty: N.DataType, v: Value)

  /** What a default-constructed constant is: the SQL NULL. */
  const NullNode: ConstNode := Const(N.Null, NoValue)

  predicate IsNull(node: ConstNode) {
    node.Const? && node.ty == N.Null
  }

  /** The two's-complement truncation of an integer to 16 bits. */
  function Int16Wrap(n: int): (r: int)
    ensures -0x8000 <= r < 0x8000
    ensures (n - r) % 0x1_0000 == 0
    ensures -0x8000 <= n < 0x8000 ==> r == n
  {
    var r := (n + 0x8000) % 0x1_0000 - 0x8000;
    assert n - r == ((n + 0x8000) / 0x1_0000) * 0x1_0000;
    r
  }

  /** `GetAsInt16` of an integer constant. */
  function AsInt16(v: Value): Value {
    if v.Num? then Num(Int16Wrap(v.n)) else v
  }

  /** `GetAsFloat` and `GetAsDouble`: an integer payload becomes a real, a real stays as it is. */
  function AsReal(v: Value): Value {
    if v.Num? then Real(v.n as real) else v
  }

  /** `GetAsDate` of a string constant. */
  function DateOf(v: Value): Option<(nat, nat, nat)> {
    if v.Text? then ParseDate(v.s) else None
  }

  predicate DateAccepted(v: Value) {
    DateOf(v).Some? && ValidDate(DateOf(v).value.0, DateOf(v).value.1, DateOf(v).value.2)
  }

  /** The node type the row encoder expects for a value of a column type. */
  predicate StoredAs(col: T.ColumnType, ty: N.DataType) {
    match col
    case Bool => ty == N.Int32
    case SmallInt => ty == N.Int16
    case Int => ty == N.Int32
    case BigInt => ty == N.Int64
    case Float => ty == N.Float
    case Double => ty == N.Double
    case Date => ty == N.Date || ty == N.Int32
    case Timestamp => ty == N.Int64
    case Varchar => ty == N.Varchar
    case String => ty == N.Varchar
    case Other(_) => false
  }

  /** The constant types a column type accepts (a string for a DATE column is decided by its contents). */
  function Accepted(col: T.ColumnType): set<N.DataType> {
    match col
    case Bool => {N.Int32}
    case SmallInt => {N.Int16, N.Int32}
    case Int => {N.Int16, N.Int32}
    case BigInt => {N.Int16, N.Int32, N.Int64}
    case Float => {N.Float, N.Double, N.Int16, N.Int32}
    case Double => {N.Float, N.Double, N.Int16, N.Int32}
    case Date => {N.Date}
    case Timestamp => {N.Int16, N.Int32, N.Int64, N.Timestamp}
    case Varchar => {N.Varchar}
    case String => {N.Varchar}
    case Other(_) => {}
  }

  /**
   Coerce a constant to a column type, or nothing when the combination is not allowed.
   Integer widenings keep the value, the one narrowing truncates to 16 bits, and a
   string for a DATE column is packed into a 32-bit integer when its fields are in range.
   */
  function GetDefaultMapValue(node: ConstNode, col: T.ColumnType): (r: Option<ConstNode>)
    ensures r.Some? ==> node.Const? && r.value.Const? && StoredAs(col, r.value.ty)
  {
    if node.Placeholder? then None
    else
      var ty := node.ty;
      match col
      case Bool =>
        if ty == N.Int32 then Some(node) else None
      case SmallInt =>
        if ty == N.Int16 then Some(node)
        else if ty == N.Int32 then Some(Const(N.Int16, AsInt16(node.v)))
        else None
      case Int =>
        if ty == N.Int16 then Some(Const(N.Int32, node.v))
        else if ty == N.Int32 then Some(node)
        else None
      case BigInt =>
        if ty == N.Int16 || ty == N.Int32 then Some(Const(N.Int64, node.v))
        else if ty == N.Int64 then Some(node)
        else None
      case Float =>
        if ty == N.Double || ty == N.Int32 || ty == N.Int16 then Some(Const(N.Float, AsReal(node.v)))
        else if ty == N.Float then Some(node)
        else None
      case Double =>
        if ty == N.Float || ty == N.Int32 || ty == N.Int16 then Some(Const(N.Double, AsReal(node.v)))
        else if ty == N.Double then Some(node)
        else None
      case Date =>
        if ty == N.Varchar then
          if DateAccepted(node.v) then
            var date := DateOf(node.v).value;
            Some(Const(N.Int32, Num(PackDate(date.0, date.1, date.2))))
          else None
        else if ty == N.Date then Some(node)
        else None
      case Timestamp =>
        if ty == N.Int16 || ty == N.Int32 || ty == N.Timestamp then Some(Const(N.Int64, node.v))
        else if ty == N.Int64 then Some(node)
        else None
      case Varchar =>
        if ty == N.Varchar then Some(node) else None
      case String =>
        if ty == N.Varchar then Some(node) else None
      case Other(_) => None
  }

  /**
   What a conversion keeps: integer widenings keep the value, the one narrowing truncates
   it to 16 bits, and a conversion to the constant's own type returns the constant.
   */
  lemma CoercionValues(node: ConstNode, col: T.ColumnType)
    ensures var r := GetDefaultMapValue(node, col);
      && (r.Some? && node.ty in {N.Int16, N.Int32, N.Int64, N.Timestamp} && r.value.ty in {N.Int32, N.Int64}
          ==> r.value.v == node.v)
      && (r.Some? && node.ty == N.Int32 && r.value.ty == N.Int16 ==> r.value.v == AsInt16(node.v))
      && (r.Some? && node.ty == r.value.ty ==> r.value == node)
  {
  }

  /** A string for a DATE column is packed exactly when its three fields are in range. */
  lemma DateFromString(node: ConstNode)
    requires node.Const? && node.ty == N.Varchar
    ensures var r := GetDefaultMapValue(node, T.Date);
      && (r.Some? <==> DateAccepted(node.v))
      && (r.Some? ==> r.value == Const(N.Int32, Num(PackDate(DateOf(node.v).value.0, DateOf(node.v).value.1, DateOf(node.v).value.2))))
  {
    if DateAccepted(node.v) {
      var date := DateOf(node.v).value;
      assert GetDefaultMapValue(node, T.Date) == Some(Const(N.Int32, Num(PackDate(date.0, date.1, date.2))));
    } else {
      assert GetDefaultMapValue(node, T.Date) == None;
    }
  }

  /** The acceptance table: outside the DATE-from-string case a constant converts exactly when its type is listed. */
  lemma AcceptanceTable(node: ConstNode, col: T.ColumnType)
    requires node.Const?
    requires !(col == T.Date && node.ty == N.Varchar)
    ensures GetDefaultMapValue(node, col).Some? <==> node.ty in Accepted(col)
  {
  }

  /** A date string in range converts to the packed date, which unpacks to the same fields. */
  lemma DateStringRoundTrip(y: nat, m: nat, d: nat)
    requires ValidDate(y, m, d)
    ensures var r := GetDefaultMapValue(Const(N.Varchar, Text(FormatDate(y, m, d))), T.Date);
      && r.Some? && r.value.ty == N.Int32 && r.value.v.Num? && r.value.v.n >= 0
      && UnpackDate(r.value.v.n) == (y, m, d)
  {
    FormatParseRoundTrip(y, m, d);
    PackDateRoundTrip(y, m, d);
  }

  // ---------------------------------------------------------------- the default map

  datatype MapError =
    | NullRow
    | TooFewValues
    | NotNullOmitted(idx: nat)
    | NotNullGivenNull(idx: nat)
    | TypeMismatch(idx: nat)
    | ValueOutOfRange(idx: nat)

  /** The per-column defaults, and the running byte length of the string constants. */
  datatype DefaultMap = DefaultMap(entries: map<nat, ConstNode>, strLength: uint32)

  /** Fewer values than columns: the explicit column list if there is one, else the table's columns. */
  predicate TooFew(cols: seq<T.ColumnDesc>, columnMap: map<nat, nat>, row: seq<ConstNode>) {
    (|columnMap| == 0 && |row| < |cols|) || (|columnMap| > 0 && |row| < |columnMap|)
  }

  /** Whether column `idx` takes its value from the value list. */
  predicate Listed(columnMap: map<nat, nat>, idx: nat) {
    |columnMap| == 0 || idx in columnMap
  }

  /** Position in the value list of a listed column's value. */
  function ValueIndex(columnMap: map<nat, nat>, idx: nat): nat
    requires Listed(columnMap, idx)
  {
    if |columnMap| == 0 then idx else columnMap[idx]
  }

  /**
   The default of one table column: `Success(None)` for a placeholder, `Success(Some(v))`
   for a value, or the reason the whole map is refused.
   */
  function ColumnDefault(cols: seq<T.ColumnDesc>, columnMap: map<nat, nat>, row: seq<ConstNode>, idx: nat): (r: Result<Option<ConstNode>, MapError>)
    requires idx < |cols|
    ensures r.Success? && r.value.Some? ==> r.value.value.Const?
  {
    if !Listed(columnMap, idx) then
      if cols[idx].notNull then Failure(NotNullOmitted(idx)) else Success(Some(NullNode))
    else
      var i := ValueIndex(columnMap, idx);
      if i >= |row| then Failure(ValueOutOfRange(idx))
      else
        var p := row[i];
        if p.Placeholder? then Success(None)
        else if IsNull(p) then
          if cols[idx].notNull then Failure(NotNullGivenNull(idx)) else Success(Some(p))
        else
          match GetDefaultMapValue(p, cols[idx].dataType)
          case None => Failure(TypeMismatch(idx))
          case Some(v) => Success(Some(v))
  }

  /** The per-column rules of the default map. */
  lemma ColumnDefaultRules(cols: seq<T.ColumnDesc>, columnMap: map<nat, nat>, row: seq<ConstNode>, idx: nat)
    requires idx < |cols|
    ensures var r := ColumnDefault(cols, columnMap, row, idx);
      // a column left out of an explicit list is NULL, unless it is NOT NULL
      && (!Listed(columnMap, idx) ==>
            r == if cols[idx].notNull then Failure(NotNullOmitted(idx)) else Success(Some(NullNode)))
      && (Listed(columnMap, idx) && ValueIndex(columnMap, idx) >= |row| ==> r == Failure(ValueOutOfRange(idx)))
      && (Listed(columnMap, idx) && ValueIndex(columnMap, idx) < |row| ==>
            var p := row[ValueIndex(columnMap, idx)];
            // placeholders get no entry
            && (r == Success(None) <==> p.Placeholder?)
            // an explicit NULL is kept, unless the column is NOT NULL
            && (IsNull(p) ==> r == if cols[idx].notNull then Failure(NotNullGivenNull(idx)) else Success(Some(p)))
            // any other value is coerced to the column type, or refused
            && (p.Const? && !IsNull(p) ==>
                  r == if GetDefaultMapValue(p, cols[idx].dataType).Some?
                       then Success(GetDefaultMapValue(p, cols[idx].dataType)) else Failure(TypeMismatch(idx))))
  {
  }

  /** The number of characters before the first NUL. */
  function CharsBeforeNul(s: string): (n: nat)
    ensures n <= |s|
    ensures forall i :: 0 <= i < n ==> s[i] != '\0'
    ensures n < |s| ==> s[n] == '\0'
  {
    if |s| == 0 || s[0] == '\0' then 0 else 1 + CharsBeforeNul(s[1..])
  }

  /** Length of a character's UTF-8 encoding, by code point range. */
  function Utf8Length(c: char): (n: nat)
    ensures 1 <= n <= 4
  {
    if c as int < 0x80 then 1
    else if c as int < 0x800 then 2
    else if c as int < 0x1_0000 then 3
    else 4
  }

  /** Total length of the UTF-8 encodings of the characters of `s`. */
  function Utf8Size(s: string): nat
    decreases |s|
  {
    if |s| == 0 then 0 else Utf8Length(s[0]) + Utf8Size(s[1..])
  }

  /** UTF-8 encoding of one character: a lead byte carrying the length, then 6-bit continuation bytes. */
  function EncodeChar(c: char): (r: seq<uint8>)
    ensures |r| == Utf8Length(c)
    ensures c != '\0' ==> forall i :: 0 <= i < |r| ==> r[i] != 0
    ensures c == '\0' ==> r == [0]
  {
    var v := c as int;
    if v < 0x80 then [v]
    else if v < 0x800 then [0xC0 + v / 64, 0x80 + v % 64]
    else if v < 0x1_0000 then [0xE0 + v / 4096, 0x80 + (v / 64) % 64, 0x80 + v % 64]
    else [0xF0 + v / 0x4_0000, 0x80 + (v / 4096) % 64, 0x80 + (v / 64) % 64, 0x80 + v % 64]
  }

  /** UTF-8 encoding of a string, the bytes a constant's text is held in. */
  function Encode(s: string): seq<uint8>
    decreases |s|
  {
    if |s| == 0 then [] else EncodeChar(s[0]) + Encode(s[1..])
  }

  /** C `strlen` over bytes: the number of bytes before the first zero byte. */
  function CStrLen(b: seq<uint8>): (n: nat)
    ensures n <= |b|
    ensures forall i :: 0 <= i < n ==> b[i] != 0
    ensures n < |b| ==> b[n] == 0
    decreases |b|
  {
    if |b| == 0 || b[0] == 0 then 0 else 1 + CStrLen(b[1..])
  }

  /** Bytes with no zero in front of `rest` add their length to `strlen`. */
  lemma {:induction false} CStrLenSkips(front: seq<uint8>, rest: seq<uint8>)
    requires forall i :: 0 <= i < |front| ==> front[i] != 0
    ensures CStrLen(front + rest) == |front| + CStrLen(rest)
    decreases |front|
  {
    if |front| > 0 {
      assert (front + rest)[1..] == front[1..] + rest;
      CStrLenSkips(front[1..], rest);
    } else {
      assert front + rest == rest;
    }
  }

  lemma {:induction false} StrLenCounts(s: string)
    ensures CStrLen(Encode(s)) == Utf8Size(s[..CharsBeforeNul(s)])
    decreases |s|
  {
    if |s| > 0 {
      if s[0] == '\0' {
        assert Encode(s) == [0] + Encode(s[1..]);
        assert s[..0] == [];
      } else {
        CStrLenSkips(EncodeChar(s[0]), Encode(s[1..]));
        StrLenCounts(s[1..]);
        var n := CharsBeforeNul(s);
        assert s[..n][1..] == s[1..][..n - 1];
      }
    }
  }

  /**
   `strlen` of a text constant: the bytes of its UTF-8 encoding before the first zero byte,
   which are those of the characters before the first NUL.
   */
  function StrLen(s: string): (n: nat)
    ensures n == Utf8Size(s[..CharsBeforeNul(s)])
  {
    StrLenCounts(s);
    CStrLen(Encode(s))
  }

  function TextOf(v: Value): string {
    if v.Text? then v.s else ""
  }

  /** Bytes column `idx` adds to the string length: those of a non-null value for a string column. */
  function StrContribution(cols: seq<T.ColumnDesc>, columnMap: map<nat, nat>, row: seq<ConstNode>, idx: nat): nat
    requires idx < |cols|
  {
    if Listed(columnMap, idx) && ValueIndex(columnMap, idx) < |row|
       && row[ValueIndex(columnMap, idx)].Const? && !IsNull(row[ValueIndex(columnMap, idx)])
       && T.IsStringType(cols[idx].dataType)
    then StrLen(TextOf(row[ValueIndex(columnMap, idx)].v))
    else 0
  }

  /** Sum of the contributions of columns `0..k`. */
  function StrTotal(cols: seq<T.ColumnDesc>, columnMap: map<nat, nat>, row: seq<ConstNode>, k: nat): nat
    requires k <= |cols|
  {
    if k == 0 then 0 else StrTotal(cols, columnMap, row, k - 1) + StrContribution(cols, columnMap, row, k - 1)
  }

  lemma ModAdd(a: nat, b: nat, m: int)
    requires m > 0
    ensures (a % m + b) % m == (a + b) % m
  {
    var low := (a % m + b) % m;
    var q1 := a / m;
    var q2 := (a % m + b) / m;
    assert a == m * q1 + a % m;
    assert a % m + b == m * q2 + low;
    assert m * q1 + m * q2 == m * (q1 + q2);
    ModUnique(a + b, low, q1 + q2, m);
  }

  /** Every column before `k` has a default. */
  predicate AllDefaulted(cols: seq<T.ColumnDesc>, columnMap: map<nat, nat>, row: seq<ConstNode>, k: nat)
    requires k <= |cols|
  {
    forall j :: 0 <= j < k ==> ColumnDefault(cols, columnMap, row, j).Success?
  }

  /** What one column decides: its default (or the refusal) and the string bytes it adds. */
  datatype Verdict = Verdict(outcome: Result<Option<ConstNode>, MapError>, strBytes: nat)

  /** The verdict of every table column, in table order. */
  function Verdicts(cols: seq<T.ColumnDesc>, columnMap: map<nat, nat>, row: seq<ConstNode>): (r: seq<Verdict>)
    ensures |r| == |cols|
  {
    seq(|cols|, j requires 0 <= j < |cols| =>
      Verdict(ColumnDefault(cols, columnMap, row, j), StrContribution(cols, columnMap, row, j)))
  }

  /** The map built from the verdicts of columns `0..k` in table order, stopping at the first refusal. */
  function Collect(verdicts: seq<Verdict>, k: nat, strLength: uint32): (r: Result<DefaultMap, MapError>)
    requires k <= |verdicts|
    decreases k
  {
    if k == 0 then Success(DefaultMap(map[], strLength))
    else
      match Collect(verdicts, k - 1, strLength)
      case Failure(e) => Failure(e)
      case Success(m) =>
        var v := verdicts[k - 1];
        match v.outcome
        case Failure(e) => Failure(e)
        case Success(None) => Success(DefaultMap(m.entries, (m.strLength + v.strBytes) % TWO_32))
        case Success(Some(c)) => Success(DefaultMap(m.entries[k - 1 := c], (m.strLength + v.strBytes) % TWO_32))
  }

  /**
   Build the default map of an INSERT row. A missing row or too few values refuse the
   map; otherwise the columns are visited in table order and the first refused column
   refuses the whole map. The string length grows in `uint32` arithmetic.
   */
  method GetDefaultMap(cols: seq<T.ColumnDesc>, columnMap: map<nat, nat>, row: Option<seq<ConstNode>>, strLength: uint32)
    returns (r: Result<DefaultMap, MapError>)
    ensures row.None? ==> r == Failure(NullRow)
    ensures row.Some? && TooFew(cols, columnMap, row.value) ==> r == Failure(TooFewValues)
    ensures row.Some? && !TooFew(cols, columnMap, row.value) ==>
      r == Collect(Verdicts(cols, columnMap, row.value), |cols|, strLength)
  {
    if row.None? {
      r := Failure(NullRow);
    } else if TooFew(cols, columnMap, row.value) {
      r := Failure(TooFewValues);
    } else {
      r := VisitColumns(Verdicts(cols, columnMap, row.value), strLength);
    }
  }

  /** The loop over the table's columns. */
  method VisitColumns(verdicts: seq<Verdict>, strLength: uint32) returns (r: Result<DefaultMap, MapError>)
    ensures r == Collect(verdicts, |verdicts|, strLength)
  {
    var entries: map<nat, ConstNode> := map[];
    var len: uint32 := strLength;
    var idx := 0;
    while idx < |verdicts|
      invariant idx <= |verdicts|
      invariant Collect(verdicts, idx, strLength) == Success(DefaultMap(entries, len))
    {
      var c := verdicts[idx].outcome;
      if c.Failure? {
        CollectStops(verdicts, idx + 1, |verdicts|, strLength);
        return Failure(c.error);
      }
      if c.value.Some? {
        entries := entries[idx := c.value.value];
      }
      len := (len + verdicts[idx].strBytes) % TWO_32;
      idx := idx + 1;
    }
    return Success(DefaultMap(entries, len));
  }

  /** Once a column is refused, every longer prefix is refused with the same error. */
  lemma {:induction false} CollectStops(verdicts: seq<Verdict>, j: nat, k: nat, strLength: uint32)
    requires j <= k <= |verdicts|
    requires Collect(verdicts, j, strLength).Failure?
    ensures Collect(verdicts, k, strLength) == Collect(verdicts, j, strLength)
    decreases k
  {
    if k > j {
      CollectStops(verdicts, j, k - 1, strLength);
    }
  }

  /** The string bytes of the verdicts of columns `0..k`. */
  function StrBytes(verdicts: seq<Verdict>, k: nat): nat
    requires k <= |verdicts|
  {
    if k == 0 then 0 else StrBytes(verdicts, k - 1) + verdicts[k - 1].strBytes
  }

  /**
   The map is built exactly when no column before `k` is refused; otherwise its error is
   that of the first refused column. The string length is the starting length plus the
   string bytes, modulo 2^32.
   */
  lemma {:induction false} CollectMeaning(verdicts: seq<Verdict>, k: nat, strLength: uint32)
    requires k <= |verdicts|
    ensures Collect(verdicts, k, strLength).Success? <==> forall j :: 0 <= j < k ==> verdicts[j].outcome.Success?
    ensures var r := Collect(verdicts, k, strLength);
      r.Failure? ==> exists idx :: (0 <= idx < k && verdicts[idx].outcome == Failure(r.error)
                                    && forall j :: 0 <= j < idx ==> verdicts[j].outcome.Success?)
    ensures var r := Collect(verdicts, k, strLength);
      r.Success? ==> r.value.strLength == (strLength + StrBytes(verdicts, k)) % TWO_32
    decreases k
  {
    if k > 0 {
      CollectMeaning(verdicts, k - 1, strLength);
      if Collect(verdicts, k - 1, strLength).Success? {
        ModAdd(strLength + StrBytes(verdicts, k - 1), verdicts[k - 1].strBytes, TWO_32);
      }
    }
  }

  /** Column `j` has an entry exactly when it is collected and not a placeholder, and the entry is its default. */
  lemma {:induction false} CollectedEntry(verdicts: seq<Verdict>, k: nat, strLength: uint32, j: nat)
    requires k <= |verdicts|
    requires Collect(verdicts, k, strLength).Success?
    ensures var e := Collect(verdicts, k, strLength).value.entries;
      && (j < k ==> verdicts[j].outcome.Success?)
      && (j in e <==> j < k && verdicts[j].outcome.value.Some?)
      && (j in e ==> e[j] == verdicts[j].outcome.value.value)
    decreases k
  {
    if k > 0 {
      CollectedEntry(verdicts, k - 1, strLength, j);
    }
  }

  lemma {:induction false} StrBytesOfVerdicts(cols: seq<T.ColumnDesc>, columnMap: map<nat, nat>, row: seq<ConstNode>, k: nat)
    requires k <= |cols|
    ensures StrBytes(Verdicts(cols, columnMap, row), k) == StrTotal(cols, columnMap, row, k)
  {
    if k > 0 {
      StrBytesOfVerdicts(cols, columnMap, row, k - 1);
    }
  }

  /**
   The default map of a row with enough values exists exactly when every column has a
   default, and its error is otherwise that of the first refused column in table order.
   */
  lemma DefaultMapDecision(cols: seq<T.ColumnDesc>, columnMap: map<nat, nat>, row: seq<ConstNode>, strLength: uint32)
    ensures var r := Collect(Verdicts(cols, columnMap, row), |cols|, strLength);
      && (r.Success? <==> AllDefaulted(cols, columnMap, row, |cols|))
      && (r.Failure? ==> exists idx :: 0 <= idx < |cols| && AllDefaulted(cols, columnMap, row, idx)
                                       && ColumnDefault(cols, columnMap, row, idx) == Failure(r.error))
  {
    var vs := Verdicts(cols, columnMap, row);
    CollectMeaning(vs, |cols|, strLength);
    assert forall j :: 0 <= j < |cols| ==> vs[j].outcome == ColumnDefault(cols, columnMap, row, j);
  }

  /**
   In a built default map, exactly the columns whose value is not a placeholder have an
   entry, holding their default; the string length has grown by every string constant's
   length, modulo 2^32.
   */
  lemma DefaultMapContents(cols: seq<T.ColumnDesc>, columnMap: map<nat, nat>, row: seq<ConstNode>, strLength: uint32, j: nat)
    requires Collect(Verdicts(cols, columnMap, row), |cols|, strLength).Success?
    ensures var m := Collect(Verdicts(cols, columnMap, row), |cols|, strLength).value;
      && (j < |cols| ==> ColumnDefault(cols, columnMap, row, j).Success?)
      && (j in m.entries <==> j < |cols| && ColumnDefault(cols, columnMap, row, j).value.Some?)
      && (j in m.entries ==> m.entries[j] == ColumnDefault(cols, columnMap, row, j).value.value)
      && m.strLength == (strLength + StrTotal(cols, columnMap, row, |cols|)) % TWO_32
  {
    var vs := Verdicts(cols, columnMap, row);
    CollectedEntry(vs, |cols|, strLength, j);
    CollectMeaning(vs, |cols|, strLength);
    StrBytesOfVerdicts(cols, columnMap, row, |cols|);
  }

  // ---------------------------------------------------------------- explicit column lists

  datatype ColumnError = DuplicateColumn(name: string) | UnknownColumn(name: string)

  /** Position of the first table column with this name. */
  function FindColumn(cols: seq<T.ColumnDesc>, name: string): (r: Option<nat>)
    ensures r.Some? ==> r.value < |cols| && cols[r.value].name == name
    ensures r.Some? ==> forall i :: 0 <= i < r.value ==> cols[i].name != name
    ensures r.None? ==> forall i :: 0 <= i < |cols| ==> cols[i].name != name
  {
    if |cols| == 0 then None
    else if cols[0].name == name then Some(0)
    else
      match FindColumn(cols[1..], name)
      case None => None
      case Some(k) => Some(k + 1)
  }

  /** The first `j` names all name table columns, and no name repeats among them. */
  predicate PrefixMapped(cols: seq<T.ColumnDesc>, names: seq<string>, j: nat)
    requires j <= |names|
  {
    && (forall k :: 0 <= k < j ==> FindColumn(cols, names[k]).Some?)
    && (forall k, l :: 0 <= k < l < j ==> names[k] != names[l])
  }

  /** The error for the statement column at `j` once the ones before it are fine. */
  function ErrorAt(cols: seq<T.ColumnDesc>, names: seq<string>, j: nat): ColumnError
    requires j < |names|
  {
    if FindColumn(cols, names[j]).None? then UnknownColumn(names[j]) else DuplicateColumn(names[j])
  }

  /** A prefix of a mapped prefix is mapped. */
  lemma PrefixMappedDown(cols: seq<T.ColumnDesc>, names: seq<string>, j: nat, k: nat)
    requires j <= k <= |names|
    requires PrefixMapped(cols, names, k)
    ensures PrefixMapped(cols, names, j)
  {
  }

  /** One more known, fresh name extends the mapped prefix. */
  lemma PrefixMappedStep(cols: seq<T.ColumnDesc>, names: seq<string>, j: nat)
    requires j < |names|
    requires PrefixMapped(cols, names, j)
    requires FindColumn(cols, names[j]).Some?
    requires forall k :: 0 <= k < j ==> names[k] != names[j]
    ensures PrefixMapped(cols, names, j + 1)
  {
  }

  /** Table position of the statement column at `k`, for a name the table has. */
  function Pos(cols: seq<T.ColumnDesc>, names: seq<string>, k: nat): (r: nat)
    requires k < |names| && FindColumn(cols, names[k]).Some?
    ensures r < |cols| && cols[r].name == names[k]
  {
    FindColumn(cols, names[k]).value
  }

  /**
   The map built from the first `j` names: one entry per name, from its table position
   to its list position, and every entry pointing back at a column of that name.
   */
  predicate MapsPrefix(cols: seq<T.ColumnDesc>, names: seq<string>, m: map<nat, nat>, j: nat)
    requires j <= |names|
    requires PrefixMapped(cols, names, j)
  {
    && |m| == j
    && (forall k :: 0 <= k < j ==> Pos(cols, names, k) in m && m[Pos(cols, names, k)] == k)
    && (forall i :: i in m ==> i < |cols| && m[i] < j && names[m[i]] == cols[i].name)
  }

  /** A known name whose column is not yet mapped extends the map by one entry. */
  lemma MapsPrefixStep(cols: seq<T.ColumnDesc>, names: seq<string>, m: map<nat, nat>, j: nat)
    requires j < |names|
    requires PrefixMapped(cols, names, j) && MapsPrefix(cols, names, m, j)
    requires FindColumn(cols, names[j]).Some? && Pos(cols, names, j) !in m
    ensures PrefixMapped(cols, names, j + 1)
    ensures MapsPrefix(cols, names, m[Pos(cols, names, j) := j], j + 1)
  {
    forall k | 0 <= k < j
      ensures names[k] != names[j]
    {
      assert Pos(cols, names, k) in m;
    }
    PrefixMappedStep(cols, names, j);
    MapsPrefixExtend(cols, names, m, j, Pos(cols, names, j));
  }

  /** The map extended with the fresh entry `f := j` maps the prefix one longer. */
  lemma MapsPrefixExtend(cols: seq<T.ColumnDesc>, names: seq<string>, m: map<nat, nat>, j: nat, f: nat)
    requires j < |names|
    requires PrefixMapped(cols, names, j + 1) && MapsPrefix(cols, names, m, j)
    requires f == Pos(cols, names, j) && f !in m
    ensures MapsPrefix(cols, names, m[f := j], j + 1)
  {
    var m' := m[f := j];
    ExtendFindsNames(cols, names, m, m', j, f);
    ExtendPointsBack(cols, names, m, m', j, f);
    assert |m'| == |m| + 1 == j + 1;
  }

  /** Every name of the longer prefix finds its position in the extended map. */
  lemma ExtendFindsNames(cols: seq<T.ColumnDesc>, names: seq<string>, m: map<nat, nat>, m': map<nat, nat>, j: nat, f: nat)
    requires j < |names|
    requires PrefixMapped(cols, names, j + 1)
    requires forall k :: 0 <= k < j ==> Pos(cols, names, k) in m && m[Pos(cols, names, k)] == k
    requires f == Pos(cols, names, j) && m' == m[f := j]
    ensures forall k :: 0 <= k < j + 1 ==> Pos(cols, names, k) in m' && m'[Pos(cols, names, k)] == k
  {
    forall k | 0 <= k < j + 1
      ensures Pos(cols, names, k) in m' && m'[Pos(cols, names, k)] == k
    {
      if k < j {
        assert Pos(cols, names, k) in m;
        assert Pos(cols, names, k) != f by {
          assert names[k] != names[j];
        }
      }
    }
  }

  /** Every entry of the extended map points back at a column of the same name. */
  lemma ExtendPointsBack(cols: seq<T.ColumnDesc>, names: seq<string>, m: map<nat, nat>, m': map<nat, nat>, j: nat, f: nat)
    requires j < |names|
    requires PrefixMapped(cols, names, j + 1)
    requires forall i :: i in m ==> i < |cols| && m[i] < j && names[m[i]] == cols[i].name
    requires f == Pos(cols, names, j) && m' == m[f := j]
    ensures forall i :: i in m' ==> i < |cols| && m'[i] < j + 1 && names[m'[i]] == cols[i].name
  {
    forall i | i in m'
      ensures i < |cols| && m'[i] < j + 1 && names[m'[i]] == cols[i].name
    {
      if i != f {
        assert i in m;
      }
    }
  }

  /** An unknown name, or one whose column is already mapped, ends every mapped prefix at `j`. */
  lemma MapsPrefixRefused(cols: seq<T.ColumnDesc>, names: seq<string>, m: map<nat, nat>, j: nat)
    requires j < |names|
    requires PrefixMapped(cols, names, j) && MapsPrefix(cols, names, m, j)
    requires FindColumn(cols, names[j]).None? || Pos(cols, names, j) in m
    ensures !PrefixMapped(cols, names, j + 1)
    ensures !PrefixMapped(cols, names, |names|)
  {
    if FindColumn(cols, names[j]).Some? {
      var k := m[Pos(cols, names, j)];
      assert names[k] == names[j];
    }
  }

  /**
   Map each name of an INSERT statement's column list to the position of the first table
   column with that name; the map goes from table position to statement position.
   */
  method MapColumns(cols: seq<T.ColumnDesc>, names: seq<string>) returns (r: Result<map<nat, nat>, ColumnError>)
    ensures r.Success? <==> PrefixMapped(cols, names, |names|)
    ensures r.Failure? ==>
      exists j :: 0 <= j < |names| && PrefixMapped(cols, names, j) && !PrefixMapped(cols, names, j + 1)
                  && r.error == ErrorAt(cols, names, j)
    ensures r.Success? ==> |r.value| == |names|
    ensures r.Success? ==> forall k :: 0 <= k < |names| ==>
      Pos(cols, names, k) in r.value && r.value[Pos(cols, names, k)] == k
    ensures r.Success? ==> forall i :: i in r.value ==>
      i < |cols| && r.value[i] < |names| && names[r.value[i]] == cols[i].name
  {
    var m: map<nat, nat> := map[];
    var j := 0;
    while j < |names|
      invariant j <= |names|
      invariant PrefixMapped(cols, names, j)
      invariant MapsPrefix(cols, names, m, j)
    {
      var f := FindColumn(cols, names[j]);
      if f.None? || f.value in m {
        MapsPrefixRefused(cols, names, m, j);
        return Failure(ErrorAt(cols, names, j));
      }
      MapsPrefixStep(cols, names, m, j);
      m := m[f.value := j];
      j := j + 1;
    }
    return Success(m);
  }
}

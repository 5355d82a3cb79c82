/**
 Column descriptions of a stored table, as the name server hands them to the SDK:
 a name, a column data type, a NOT NULL flag and a constant flag.
 */
module TableSchema {
  /** Column data types. `Other` stands for every enumerator the insert path has no rule for. */
  datatype ColumnType =
    | Bool | SmallInt | Int | BigInt | Float | Double | Date | Timestamp | Varchar | String
    | Other(code: int)

  datatype ColumnDesc = ColumnDesc(name: string, dataType: ColumnType, notNull: bool, isConstant: bool)

  datatype TableInfo = TableInfo(name: string, columns: seq<ColumnDesc>)

  /** The column types whose values are stored in the row's string area. */
  predicate IsStringType(t: ColumnType) {
    t == Varchar || t == String
  }
}

/** Column declarations of an entity schema (a model's COLUMNS), structured so that the
    store can enforce them, together with the SQL text each one is declared with. */
module Schema {
  import opened Values

  datatype SqlType =
    | Serial
    | Integer
    | VarChar(length: nat)
    | TextType
    | Boolean
    | DateType
    | TimeType
    | Timestamp

  datatype Default =
    | NoDefault
    | DefaultValue(v: Value)
    | CurrentTimestamp

  /** `REFERENCES table(id)`, optionally `ON DELETE CASCADE`. */
  datatype ForeignKey = ForeignKey(table: string, onDeleteCascade: bool)

  datatype ColumnDef = ColumnDef(
    name: string,
    sqlType: SqlType,
    primaryKey: bool := false,
    unique: bool := false,
    notNull: bool := false,
    default: Default := NoDefault,
    references: Option<ForeignKey> := None)
  {
    /** Whether a NULL in this column violates a constraint. */
    predicate Required() { primaryKey || notNull }

    /** Whether two rows may not share a non-NULL value in this column. */
    predicate Distinguishing() { primaryKey || unique }
  }

  function Names(cols: seq<ColumnDef>): seq<string>
  {
    seq(|cols|, i requires 0 <= i < |cols| => cols[i].name)
  }

  function Digit(d: nat): char
    requires d < 10
  {
    "0123456789"[d]
  }

  /** Decimal text of a natural number, no leading zeros. */
  function NatText(n: nat): (s: string)
    ensures |s| > 0
    decreases n
  {
    if n < 10 then [Digit(n)] else NatText(n / 10) + [Digit(n % 10)]
  }

  function TypeText(t: SqlType): string
  {
    match t
    case Serial => "SERIAL"
    case Integer => "INTEGER"
    case VarChar(n) => "VARCHAR(" + NatText(n) + ")"
    case TextType => "TEXT"
    case Boolean => "BOOLEAN"
    case DateType => "DATE"
    case TimeType => "TIME"
    case Timestamp => "TIMESTAMP"
  }

  /** SQL literal for a default value (only the kinds the schemas use are spelled out). */
  function LiteralText(v: Value): string
  {
    match v
    case Null => "NULL"
    case Int(i) => if i >= 0 then NatText(i) else "-" + NatText(-i)
    case Bool(b) => if b then "TRUE" else "FALSE"
    case Text(s) => "'" + s + "'"
    case _ => "NULL"
  }

  /** The declaration text a model writes after the column name. */
  function DeclText(c: ColumnDef): string
  {
    TypeText(c.sqlType)
    + (if c.primaryKey then " PRIMARY KEY" else "")
    + (if c.unique then " UNIQUE" else "")
    + (if c.notNull then " NOT NULL" else "")
    + (match c.default
       case NoDefault => ""
       case DefaultValue(v) => " DEFAULT " + LiteralText(v)
       case CurrentTimestamp => " DEFAULT CURRENT_TIMESTAMP")
    + (match c.references
       case None => ""
       case Some(fk) => " REFERENCES " + fk.table + "(id)"
                        + (if fk.onDeleteCascade then " ON DELETE CASCADE" else ""))
  }

  /** One entry of create_table's column list: `{col_name} {col_type}`. */
  function ColumnText(c: ColumnDef): string
  {
    c.name + " " + DeclText(c)
  }
}

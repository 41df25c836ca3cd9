/** Column type families, and the outside readers that give literals and cell texts their values. */
module ColumnTypes {
  import opened Wrappers
  import opened Chars

  datatype Family = Number | Float | Text | Uuid | Boolean | Time | Unsupported

  /** `/^DECIMAL\((\d+),(\d+)\)$/u` */
  predicate IsDecimalType(t: string) {
    && "DECIMAL(" <= t
    && var p := DigitsEnd(t, 8);
    && 8 < p < |t| && t[p] == ','
    && var s := DigitsEnd(t, p + 1);
    && p + 1 < s == |t| - 1 && t[s] == ')'
  }

  const INTEGER_TYPES: set<string> := {"TINYINT", "SMALLINT", "INTEGER", "BIGINT", "HUGEINT"}

  /** Names every plain object inherits, which the `in` operator of the source also finds. */
  const INHERITED_NAMES: set<string> := {
    "constructor", "toString", "toLocaleString", "valueOf", "hasOwnProperty", "isPrototypeOf", "propertyIsEnumerable",
    "__proto__", "__defineGetter__", "__defineSetter__", "__lookupGetter__", "__lookupSetter__"
  }

  function FamilyOf(t: string): Family {
    if t in INTEGER_TYPES || t in INHERITED_NAMES || IsDecimalType(t) then Number
    else if t == "FLOAT" || t == "DOUBLE" then Float
    else if t == "VARCHAR" then Text
    else if t == "UUID" then Uuid
    else if t == "BOOLEAN" then Boolean
    else if t in {"DATE", "TIME", "TIMESTAMP", "TIMESTAMPTZ"} then Time
    else Unsupported
  }

  datatype Magnitude = MinusInfinity | Finite(value: real) | PlusInfinity

  /** The classification of column types, which is `FamilyOf` in the source though few results need to
      know it, and the exact-decimal and date libraries, as functions that may fail.
      `numeric(text, type)`: the canonical text of a numeric or floating-point literal of that type.
      `moment(text, type)`: the canonical text of a temporal literal of that type.
      `exact(text)`: the value of a decimal text; `binary(text, type)`: that of a floating-point text.
      `instant(text, type)`: microseconds of a temporal text. */
  datatype Readers = Readers(
    family: string -> Family,
    numeric: (string, string) -> Option<string>,
    moment: (string, string) -> Option<string>,
    exact: string -> Option<Magnitude>,
    binary: (string, string) -> Option<Magnitude>,
    instant: (string, string) -> Option<int>)
}

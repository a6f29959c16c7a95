/**
 * The part of a TOML document the rewriter looks at: a value is a string, a
 * table, or anything else (integer, boolean, array, date), which is carried
 * through untouched.
 */
module Toml {
  datatype Value =
    | Str(s: string)
    | Tbl(t: map<string, Value>)
    | Other(raw: string)

  type Table = map<string, Value>
}

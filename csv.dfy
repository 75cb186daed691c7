/** A staging CSV row as csv.DictReader returns it, and dict.get on it. */
module Csv {
  /** Column name to cell text. */
  type CsvRow = map<string, string>

  /** row.get(key, fallback). */
  function Get(row: CsvRow, key: string, fallback: string): (v: string)
    ensures key in row ==> v == row[key]
    ensures key !in row ==> v == fallback
  {
    if key in row then row[key] else fallback
  }
}

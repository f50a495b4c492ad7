/**
 The row source: the single-pass, forward-only iterator over data rows that
 `replace` and `generate_page_svg_trees` share. In the program it is
 `iter(csv.DictReader(...))`; here it is a finite sequence of rows and a cursor.
 */
module Rows {

  datatype Option<T> = None | Some(value: T)

  /** One data row: column name to cell text. */
  type Row = map<string, string>

  /** A shared iterator over `rows`; `pos` is the index of the next row handed out. */
  class RowSource {
    const rows: seq<Row>
    var pos: nat

    ghost predicate Valid()
      reads this
    {
      pos <= |rows|
    }

    constructor (rows: seq<Row>)
      ensures Valid() && this.rows == rows && pos == 0
    {
      this.rows := rows;
      pos := 0;
    }

    /** `next(it)`: the next row, or None where Python raises StopIteration.
        An exhausted source stays exhausted and consumes nothing more. */
    method Next() returns (r: Option<Row>)
      requires Valid()
      modifies this`pos
      ensures Valid()
      ensures old(pos) < |rows| ==> r == Some(rows[old(pos)]) && pos == old(pos) + 1
      ensures old(pos) == |rows| ==> r == None && pos == old(pos)
    {
      if pos < |rows| {
        r := Some(rows[pos]);
        pos := pos + 1;
      } else {
        r := None;
      }
    }
  }
}

/** The values the DAO works with: the `Author` entity, a result-set row, a filter criterion. */
module Entities {
  import opened Results

  /** A calendar date, kept as the ISO-8601 text (`2000-01-01`) that `LocalDate.toString()` prints. */
  type Date = string

  /**
   * An `entity.Author`: a bean whose fields stay `null` (`None`) until a setter is called.
   * Two authors are equal when all three fields are.
   */
  datatype Author = Author(id: Option<string>, name: Option<string>, birthDate: Option<Date>)

  /** `new Author()`: no field set. */
  const EmptyAuthor: Author := Author(None, None, None)

  /** One row of `SELECT a.id, a.name, a.birth_date FROM author a ...`. */
  datatype Row = Row(id: string, name: string, birthDate: Date)

  /** A `dao.Criteria`: a column name and its value, already turned into text by `toString()`. */
  datatype Criterion = Criterion(column: string, value: string)

  /** What the DAO throws. */
  datatype Error =
    | IllegalArgument(message: string)  // bad page number
    | NullPointer                       // `Date.valueOf(null)` on an author without birth date
    | StorageError                      // the database refuses a statement (a NOT NULL column set to null)

  predicate Complete(a: Author) {
    a.id.Some? && a.name.Some? && a.birthDate.Some?
  }

  /** The author built from one row: `new Author()` followed by the three setters. */
  function FromRow(row: Row): (a: Author)
    ensures ToRow(a) == Some(row)
  {
    EmptyAuthor.(id := Some(row.id)).(name := Some(row.name)).(birthDate := Some(row.birthDate))
  }

  /** The row an author stands for, when all of its fields are set. */
  function ToRow(a: Author): (r: Option<Row>)
    ensures r.Some? <==> Complete(a)
  {
    if Complete(a) then Some(Row(a.id.value, a.name.value, a.birthDate.value)) else None
  }

  /** An author with all fields set is rebuilt from its own row. */
  lemma AuthorRoundTrip(a: Author)
    requires Complete(a)
    ensures FromRow(ToRow(a).value) == a
  {
  }

  /** The authors built from a result set, one per row and in row order. */
  function MapRows(rows: seq<Row>): (authors: seq<Author>)
    ensures |authors| == |rows|
    ensures forall i :: 0 <= i < |rows| ==> authors[i] == FromRow(rows[i])
  {
    if rows == [] then [] else MapRows(rows[..|rows| - 1]) + [FromRow(rows[|rows| - 1])]
  }
}

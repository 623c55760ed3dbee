/**
 * `AuthorCrudOperations`: the DAO as the code runs it, statement by statement,
 * over an `author` table held in a field. The query-running methods hand their
 * prepared statement to `execute`, the database engine, which is a parameter.
 */
module Dao {
  import opened Results
  import opened JavaInt
  import opened Entities
  import opened QueryText
  import opened Storage

  class AuthorCrudOperations {
    /** The `author` table the data source connects to. */
    var table: Table

    constructor (initial: Table)
      ensures table == initial
    {
      table := initial;
    }

    /**
     * `getAll(page, size, orderBy)`: rejects a page below 1, otherwise runs
     * `SELECT ... FROM author a [ORDER BY orderBy] LIMIT size OFFSET size*(page-1)`.
     */
    method GetAll(page: Int32, size: Int32, orderBy: Option<string>, execute: Query -> seq<Row>)
      returns (r: Result<seq<Author>, Error>)
      ensures page < 1 ==> r == Failure(IllegalArgument(PageMessage(page)))
      ensures 1 <= page ==> r == Success(MapRows(execute(
        Query(SelectAuthors + OrderClause(orderBy) + LimitOffset, size, Offset(page, size)))))
    {
      if page < 1 {
        return Failure(IllegalArgument(PagePrefix + IntToString(page)));
      }
      var sql := SelectAuthors;
      if orderBy.Some? && orderBy.value != "" {
        sql := sql + (" ORDER BY " + orderBy.value);
      }
      assert sql == SelectAuthors + OrderClause(orderBy);
      sql := sql + LimitOffset;
      var statement := Query(sql, size, Wrap32(size * (page - 1)));
      var authors := MapAuthorFromResultSet(execute(statement));
      return Success(authors);
    }

    /**
     * `findByCriteria(criteria, page, pageSize, orderBy)`: the same page check,
     * then `... WHERE 1=1` extended criterion by criterion, the optional ORDER BY
     * and `LIMIT ? OFFSET ?`.
     */
    method FindByCriteria(criteria: seq<Criterion>, page: Int32, pageSize: Int32, orderBy: Option<string>,
                          execute: Query -> seq<Row>)
      returns (r: Result<seq<Author>, Error>)
      ensures page < 1 ==> r == Failure(IllegalArgument(PageMessage(page)))
      ensures 1 <= page ==> r == Success(MapRows(execute(
        Query(SelectAuthors + WhereAll + Fragments(criteria) + OrderClause(orderBy) + LimitOffset,
              pageSize, Offset(page, pageSize)))))
    {
      if page < 1 {
        return Failure(IllegalArgument(PagePrefix + IntToString(page)));
      }
      var sql := SelectAuthors + WhereAll;
      ghost var start := sql;
      for i := 0 to |criteria|
        invariant sql == start + Fragments(criteria[..i])
      {
        var c := criteria[i];
        FragmentsSnoc(criteria[..i], c);
        AppendAssociative(start, Fragments(criteria[..i]), Fragment(c));
        assert criteria[..i + 1] == criteria[..i] + [c];
        if c.column == "name" {
          sql := sql + (" AND a.name ILIKE '%" + c.value + "%'");
        } else if c.column == "birth_date" {
          sql := sql + (" OR a.birth_date = '" + c.value + "'");
        }
      }
      assert criteria[..|criteria|] == criteria;
      ghost var selected := sql;
      if orderBy.Some? && orderBy.value != "" {
        sql := sql + (" ORDER BY " + orderBy.value);
      }
      assert sql == selected + OrderClause(orderBy);
      sql := sql + LimitOffset;
      var statement := Query(sql, pageSize, Wrap32(pageSize * (page - 1)));
      var authors := MapAuthorFromResultSet(execute(statement));
      return Success(authors);
    }

    /** `mapAuthorFromResultSet`: one author per row, in row order, each copying its row. */
    method MapAuthorFromResultSet(rows: seq<Row>) returns (authors: seq<Author>)
      ensures authors == MapRows(rows)
    {
      authors := [];
      var i := 0;
      while i < |rows|
        invariant 0 <= i <= |rows|
        invariant authors == MapRows(rows[..i])
      {
        var author := EmptyAuthor;
        author := author.(id := Some(rows[i].id));
        author := author.(name := Some(rows[i].name));
        author := author.(birthDate := Some(rows[i].birthDate));
        assert rows[..i + 1][..i] == rows[..i];
        authors := authors + [author];
        i := i + 1;
      }
      assert rows[..i] == rows;
    }

    /** The loop of `findById`: every row read overwrites the fields, so the last row wins. */
    method ReadAuthor(rows: seq<Row>) returns (author: Author)
      ensures rows == [] ==> author == EmptyAuthor
      ensures rows != [] ==> author == FromRow(rows[|rows| - 1])
    {
      author := EmptyAuthor;
      var i := 0;
      while i < |rows|
        invariant 0 <= i <= |rows|
        invariant author == if i == 0 then EmptyAuthor else FromRow(rows[i - 1])
      {
        author := author.(id := Some(rows[i].id));
        author := author.(name := Some(rows[i].name));
        author := author.(birthDate := Some(rows[i].birthDate));
        i := i + 1;
      }
    }

    /**
     * `findById(id)`: the returned reference is never null; it holds the stored row,
     * or a bare `new Author()` when no row has that id.
     */
    method FindById(id: Option<string>) returns (author: Option<Author>)
      ensures author.Some?
      ensures Present(table, id) ==> author.value == Author(id, Some(table[id.value].name), Some(table[id.value].birthDate))
      ensures !Present(table, id) ==> author.value == EmptyAuthor
    {
      var rows := SelectById(table, id);
      var found := ReadAuthor(rows);
      author := Some(found);
    }

    /**
     * `saveAll(entities)`: for each entity, look it up, UPDATE its row (the lookup is
     * never null, so the INSERT branch is never taken), re-read it and collect it.
     * The first exception ends the call; earlier updates stay in the table.
     */
    method SaveAll(entities: seq<Author>) returns (r: Result<seq<Author>, Error>)
      modifies this
      ensures table == SaveAllOutcome(old(table), entities).table
      ensures r == SaveAllOutcome(old(table), entities).result
    {
      var savedAuthors: seq<Author> := [];
      var i := 0;
      while i < |entities|
        invariant 0 <= i <= |entities|
        invariant SaveAllOutcome(old(table), entities[..i]) == Outcome(table, Success(savedAuthors))
      {
        var entityToSave := entities[i];
        SaveAllSnoc(old(table), entities[..i], entityToSave);
        assert entities[..i + 1] == entities[..i] + [entityToSave];
        var existingAuthor := FindById(entityToSave.id);
        if existingAuthor.Some? {
          // UPDATE author SET name = ?, birth_date = ? WHERE id = ?
          if entityToSave.birthDate.None? {
            SaveAllStopsAtFailure(old(table), entities, i + 1);
            return Failure(NullPointer);
          }
          if Present(table, entityToSave.id) {
            if entityToSave.name.None? {
              SaveAllStopsAtFailure(old(table), entities, i + 1);
              return Failure(StorageError);
            }
            table := table[entityToSave.id.value := Record(entityToSave.name.value, entityToSave.birthDate.value)];
          }
        } else {
          // INSERT INTO author (id, name, birth_date) VALUES (?, ?, ?)
          assert false;
        }
        var reread := FindById(entityToSave.id);
        savedAuthors := savedAuthors + [reread.value];
        i := i + 1;
      }
      assert entities[..i] == entities;
      return Success(savedAuthors);
    }
  }
}

# AuthorCrudOperations, modelled in Dafny

This project models `AuthorCrudOperations`, the JDBC data-access object for the
`author` table (columns `id`, `name`, `birth_date`). It implements the generic
`CrudOperations` interface with four operations:

- `getAll(page, size, orderBy)` and `findByCriteria(criteria, page, pageSize, orderBy)`
  check the page number. They then build the SQL text of a paged SELECT, bind
  `LIMIT ?` and `OFFSET ?`, and map the result set to `Author` beans.
- `findById(id)` reads the row with that id into a fresh `Author`.
- `saveAll(entities)` looks each entity up, UPDATEs its row, reads the row back
  and returns the authors it read.

Modules, leaves first:

- `Results` (results.dfy): `Option` (Java `null` is `None`) and `Result` (normal return or exception).
- `JavaInt` (java_int.dfy): Java's 32-bit `int`, its wrap-around, and the decimal
  text Java prints for an `int`, with the parse that reads it back.
- `Entities` (entities.dfy): the `Author` bean (every field may still be `null`),
  a result-set `Row`, a `Criterion` whose value is already text, the exceptions,
  and the row-to-author mapping.
- `QueryText` (query_text.dfy): the constant SQL pieces, the fragment each
  criterion adds, the ORDER BY part, the page message and the bound offset.
- `WhereClause` (where_clause.dfy): what the generated WHERE clause selects.
  SQL binds AND tighter than OR, so `1=1 AND n1 OR d1 AND n2` reads as
  `(1=1 AND n1) OR (d1 AND n2)`.
- `Storage` (storage.dfy): the table as a map from id to `(name, birth_date)`.
  It holds the reference functions for `findById`, the UPDATE statement and a
  whole `saveAll` call, and the lemmas about them.
- `Dao` (author_crud.dfy): the class `AuthorCrudOperations`. Its methods follow
  the Java code statement by statement. The table is a field that `SaveAll`
  updates. Each method is proved against the reference functions.

## Where the code differs from what its documentation expects

The model follows the code.

- `findById` never returns `null`. On a miss it returns `new Author()` with
  every field unset. So the test `existingAuthor != null` in `saveAll` always
  holds, and the INSERT branch can never run. In `SaveAll` that branch is
  `assert false`, so the proof shows it cannot be reached.
- `saveAll` therefore never creates a row, although the interface comment
  (src/dao/CrudOperations.java:12) and the create test
  (src/test/AuthorCrudOperationsTest.java:42-47) expect it to. For a new id the
  table stays unchanged and the returned list holds `new Author()`
  (`Storage.SaveAllDoesNotInsert`, `Storage.CreateIsNotReadBack`).
- A `birth_date` criterion adds `OR ...` to `WHERE 1=1`. So a date filter used on
  its own, or placed before any name filter, selects every row
  (`WhereClause.LeadingBirthDateSelectsAll`). Only the order used by the tests,
  name then date, reads as "name matches or date matches"
  (`WhereClause.NameThenBirthDate`).
- `orderBy` is appended verbatim, with no check against the known columns.
- The offset is computed in Java `int` and wraps around. Page 32769 with size
  65536 binds offset -2147483648 (`QueryText.OffsetWrapsAround`).

## Model

| member | source | states |
|---|---|---|
| `JavaInt.Wrap32` | src/dao/AuthorCrudOperations.java:28 | Java `int` wrap-around: the result is the one 32-bit value congruent to the exact value modulo 2^32, so a value already in range is kept and 2^31 becomes -2^31 |
| `JavaInt.ParseIntOfIntToString` | src/dao/AuthorCrudOperations.java:18 | the decimal text printed for an `int` reads back to the same number |
| `JavaInt.IntToStringInjective` | src/dao/AuthorCrudOperations.java:18 | two numbers print the same text only if they are equal |
| `QueryText.PageMessageDeterminesPage` | src/dao/AuthorCrudOperations.java:17-19 | the IllegalArgumentException message names the page: equal messages mean equal pages |
| `QueryText.Offset` | src/dao/AuthorCrudOperations.java:27-28 | the bound offset is `size * (page - 1)` whenever that product fits in an `int`, page 1 gives offset 0, and in every case it is congruent to the exact product modulo 2^32 |
| `QueryText.OffsetWrapsAround` | src/dao/AuthorCrudOperations.java:57-58 | page 32769 with size 65536 binds a negative offset, -2^31 |
| `QueryText.GetAllOrdersIff` | src/dao/AuthorCrudOperations.java:20-24 | the statement `getAll` prepares contains ` ORDER BY ` if and only if `orderBy` is non-null and non-empty |
| `QueryText.FindByCriteriaOrders` | src/dao/AuthorCrudOperations.java:51-55 | the statement `findByCriteria` prepares contains ` ORDER BY ` whenever `orderBy` is non-null and non-empty, whatever the criteria |
| `QueryText.CriterionValueCanAddOrderBy` | src/dao/AuthorCrudOperations.java:45-46 | the converse fails for `findByCriteria`: with `orderBy` null, any `name` value that holds ` ORDER BY ` is spliced unescaped into the text, so the text holds it too |
| `QueryText.FragmentsSnoc` | src/dao/AuthorCrudOperations.java:44-50 | one more criterion appends exactly its own fragment to the WHERE text |
| `QueryText.FragmentsAppend` | src/dao/AuthorCrudOperations.java:44-50 | the WHERE text of a concatenated list is the texts of the two parts, in list order |
| `QueryText.FragmentsUnrecognised` | src/dao/AuthorCrudOperations.java:43-50 | a list with no `name` or `birth_date` column adds nothing after `WHERE 1=1` |
| `Entities.FromRow` | src/dao/AuthorCrudOperations.java:70-73 | the author built from a row has all three fields set, and they are the row's id, name and birth date |
| `Entities.AuthorRoundTrip` | src/dao/AuthorCrudOperations.java:70-73 | an author with all fields set is rebuilt exactly from its own row |
| `Entities.MapRows` | src/dao/AuthorCrudOperations.java:67-77 | one author per row, same count, in row order, author i built from row i |
| `WhereClause.TermOf` | src/dao/AuthorCrudOperations.java:45-49 | a criterion contributes a term exactly when its column is `name` or `birth_date` |
| `WhereClause.RenderTerms` | src/dao/AuthorCrudOperations.java:43-50 | the text after `WHERE 1=1` is exactly the rendering of the criteria's terms, so the terms are what the query says |
| `WhereClause.NameThenBirthDate` | src/dao/AuthorCrudOperations.java:43-49 | a `name` criterion then a `birth_date` criterion select a row exactly when its name contains the pattern, ignoring case, or its birth date equals the value |
| `WhereClause.NameOrBirthDate` | src/test/AuthorCrudOperationsTest.java:64-76 | the test's criteria select exactly the rows whose name contains "rado" in any case or whose birth date is 2000-01-01 |
| `WhereClause.LeadingBirthDateSelectsAll` | src/dao/AuthorCrudOperations.java:47-49 | when the first recognised criterion is a `birth_date` one, every row is selected |
| `WhereClause.NameCriteriaConjunction` | src/dao/AuthorCrudOperations.java:45-46 | without `birth_date` criteria, a row is selected exactly when its name contains every `name` pattern |
| `Storage.SelectById` | src/dao/AuthorCrudOperations.java:81-85 | `WHERE id = ?` yields one row when the id is non-null and in the table, none otherwise |
| `Storage.StoredAuthor` | src/dao/AuthorCrudOperations.java:80-97 | on a hit, the stored row's id, name and birth date; on a miss or a null id, `new Author()` with no field set, never null |
| `Storage.Update` | src/dao/AuthorCrudOperations.java:106-112 | the UPDATE fails with NullPointer for a null birth date and with StorageError for a null name on an existing row; otherwise it keeps the set of ids, sets the matching row to the entity's values and leaves every other row alone |
| `Storage.SaveAllKeepsKeys` | src/dao/AuthorCrudOperations.java:104-122 | `saveAll` never adds or removes a row, whether it returns or throws |
| `Storage.SaveAllStopsAtFailure` | src/dao/AuthorCrudOperations.java:102-126 | once an entity fails, the entities after it change nothing |
| `Storage.SaveAllSucceedsIff` | src/dao/AuthorCrudOperations.java:106-112 | `saveAll` returns normally exactly when every entity has a birth date, and a name when its id is in the table |
| `Storage.SaveAllFailureKeepsEarlierUpdates` | src/dao/AuthorCrudOperations.java:102-126 | on an exception there is a first entity k that cannot be written; the exception names its cause, and the updates of entities 0..k-1 stay in the table |
| `Storage.SaveAllReadsBack` | src/dao/AuthorCrudOperations.java:103-123 | the result has the input's length, and element i is what `findById(es[i].id)` reads right after the i-th update |
| `Storage.SaveAllEchoes` | src/dao/AuthorCrudOperations.java:103-123 | element i of the result is entity i when its id is in the table, and `new Author()` otherwise |
| `Storage.SaveAllLastWriteWins` | src/dao/AuthorCrudOperations.java:106-111 | after a normal return, each row holds the last entity written with its id, and a row no entity names is unchanged |
| `Storage.SaveAllResultDependsOnIds` | src/dao/AuthorCrudOperations.java:103-123 | what `saveAll` returns or throws depends on the table only through the set of ids in it |
| `Storage.SaveAllIdempotent` | src/dao/AuthorCrudOperations.java:100-128 | calling `saveAll` again with the same list returns the same list and leaves the table unchanged |
| `Storage.SaveThenFind` | src/dao/AuthorCrudOperations.java:100-128 | for an id already stored, `saveAll([e])` returns `[e]`, and `findById` then reads `e` back |
| `Storage.SaveAllDoesNotInsert` | src/dao/AuthorCrudOperations.java:104-122 | for an id not in the table, `saveAll([e])` leaves the table unchanged and returns `[new Author()]`, because the INSERT branch is never taken |
| `Storage.CreateIsNotReadBack` | src/test/AuthorCrudOperationsTest.java:42-47 | the test's create step does not hold: for a new id, the result is not `[e]` and the id is still absent from the table |
| `Dao.AuthorCrudOperations.constructor` | src/dao/AuthorCrudOperations.java:11-12 | the DAO starts on the given table |
| `Dao.AuthorCrudOperations.GetAll` | src/dao/AuthorCrudOperations.java:16-35 | page < 1 throws IllegalArgumentException with the page message. Otherwise the statement is the fixed SELECT, the ORDER BY part and ` LIMIT ? OFFSET ?`, bound to `size` and `Offset(page, size)`, and its rows are mapped in order |
| `Dao.AuthorCrudOperations.FindByCriteria` | src/dao/AuthorCrudOperations.java:38-65 | the same page check. Otherwise the statement is `... WHERE 1=1`, the criteria's fragments in list order, the ORDER BY part and ` LIMIT ? OFFSET ?`, bound to `pageSize` and `Offset(page, pageSize)`, and its rows are mapped in order |
| `Dao.AuthorCrudOperations.MapAuthorFromResultSet` | src/dao/AuthorCrudOperations.java:67-77 | the `while (resultSet.next())` loop yields `MapRows(rows)` |
| `Dao.AuthorCrudOperations.ReadAuthor` | src/dao/AuthorCrudOperations.java:86-91 | the read loop of `findById`: no rows give `new Author()`, otherwise the author built from the last row read |
| `Dao.AuthorCrudOperations.FindById` | src/dao/AuthorCrudOperations.java:80-97 | the returned reference is never null; it holds the stored row's fields on a hit and no field on a miss |
| `Dao.AuthorCrudOperations.SaveAll` | src/dao/AuthorCrudOperations.java:100-128 | the loop leaves the table and returns or throws exactly as `SaveAllOutcome` says; the INSERT branch is proved unreachable |

## Left out

- JDBC plumbing is not modelled: `DataSource`, connections, prepared statements, result-set cursors and try-with-resources closing.
- Executing the SELECT of `getAll` and `findByCriteria` is left to the database engine, which the methods take as a parameter `execute` from the prepared statement to its rows. Ordering by the verbatim `orderBy`, LIMIT/OFFSET and ILIKE are not evaluated there.
- Dao.AuthorCrudOperations.GetAll: says nothing about how many rows come back or in what order, because that is the engine's doing (see above). The same holds for `Dao.AuthorCrudOperations.FindByCriteria`.
- `execute` is a function of the statement alone. The model does not tie its answer to the `table` field that `findById` and `saveAll` use.
- WhereClause.Holds: treats the ILIKE pattern as a literal substring with ASCII-only case folding. It does not model `%` or `_` inside a criterion's value, nor a quote in a value, which changes the statement's text (SQL injection).
- The wrapping of `SQLException` into `RuntimeException` and failures of the connection are not modelled. The only database refusal modelled is the NOT NULL `name` column refusing a null name, as `StorageError`.
- The `birth_date` and `name` columns are taken to be NOT NULL, so stored rows always have both. A null `birth_date` in a stored row would make the read throw NullPointerException; that is not modelled.
- The statement of the INSERT branch is not modelled. It can never run, which is proved.
- `LocalDate` and `java.sql.Date` conversions and `toString()` of criterion values are not modelled: dates and values are their ISO text.
- A `null` list or a `null` element of the list passed to `saveAll` is not modelled.
- The NullPointerException `findByCriteria` throws for a `null` criteria list, a `null` element of it, or a criterion whose value is `null` (`c.getValue().toString()`, src/dao/AuthorCrudOperations.java:46 and 48) is not modelled: a `Criterion` always carries a list and a text value.
- Concurrency is not modelled, and neither is the missing transaction around `saveAll` beyond its non-atomic failure, which is modelled.
- The unused `logger` field and the unused local `authors` list in `findByCriteria` are not modelled.
- `Criteria` and `Author` themselves are not part of this model. They are plain records compared field by field.

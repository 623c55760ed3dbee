/**
 * The `author` table and what `findById` and `saveAll` do to it, as functions of
 * the table: the reference the imperative DAO is proved against.
 */
module Storage {
  import opened Results
  import opened Entities

  /** The non-key columns of one `author` row. */
  datatype Record = Record(name: string, birthDate: Date)

  /** The `author` table, from its primary key `id` to the rest of the row. */
  type Table = map<string, Record>

  /** Whether `WHERE id = ?` bound to `id` matches a row; a null id matches none. */
  predicate Present(t: Table, id: Option<string>) {
    id.Some? && id.value in t
  }

  /** The rows of `SELECT a.id, a.name, a.birth_date FROM author a WHERE id = ?`. */
  function SelectById(t: Table, id: Option<string>): (rows: seq<Row>)
    ensures |rows| == if Present(t, id) then 1 else 0
  {
    if Present(t, id) then [Row(id.value, t[id.value].name, t[id.value].birthDate)] else []
  }

  /** The author `findById(id)` returns against table t: the matching row's fields, or a bare `new Author()`. */
  function StoredAuthor(t: Table, id: Option<string>): (a: Author)
    ensures Present(t, id) ==> a == Author(id, Some(t[id.value].name), Some(t[id.value].birthDate))
    ensures !Present(t, id) ==> a == EmptyAuthor
  {
    var rows := SelectById(t, id);
    if rows == [] then EmptyAuthor else FromRow(rows[|rows| - 1])
  }

  /**
   * Whether `UPDATE author SET name = ?, birth_date = ? WHERE id = ?` for e completes:
   * `Date.valueOf` needs a birth date, and the NOT NULL name column refuses a null
   * name on the row the statement changes.
   */
  predicate Writable(t: Table, e: Author) {
    e.birthDate.Some? && (Present(t, e.id) ==> e.name.Some?)
  }

  /** The UPDATE statement `saveAll` issues for one entity. */
  function Update(t: Table, e: Author): (r: Result<Table, Error>)
    ensures r.Success? <==> Writable(t, e)
    ensures e.birthDate.None? ==> r == Failure(NullPointer)
    ensures r.Failure? && e.birthDate.Some? ==> r == Failure(StorageError)
    ensures r.Success? ==> r.value.Keys == t.Keys
    ensures r.Success? && Present(t, e.id) ==> StoredAuthor(r.value, e.id) == e
    ensures r.Success? ==> forall k :: k in t && Some(k) != e.id ==> r.value[k] == t[k]
  {
    if e.birthDate.None? then Failure(NullPointer)
    else if !Present(t, e.id) then Success(t)
    else if e.name.None? then Failure(StorageError)
    else Success(t[e.id.value := Record(e.name.value, e.birthDate.value)])
  }

  /** The table after a call, and what the call returned or threw. */
  datatype Outcome = Outcome(table: Table, result: Result<seq<Author>, Error>)

  /**
   * `saveAll(es)` from table t: entity by entity, UPDATE then re-read through
   * `findById`; the first failure ends the call, and the rows already updated stay so.
   */
  function SaveAllOutcome(t: Table, es: seq<Author>): Outcome {
    if es == [] then Outcome(t, Success([]))
    else
      var prev := SaveAllOutcome(t, es[..|es| - 1]);
      var e := es[|es| - 1];
      if prev.result.Failure? then prev
      else
        match Update(prev.table, e)
        case Failure(err) => Outcome(prev.table, Failure(err))
        case Success(t') => Outcome(t', Success(prev.result.value + [StoredAuthor(t', e.id)]))
  }

  /** One more entity: its update, then its re-read, unless an earlier one failed. */
  lemma SaveAllSnoc(t: Table, es: seq<Author>, e: Author)
    ensures var prev := SaveAllOutcome(t, es);
      SaveAllOutcome(t, es + [e]) ==
        if prev.result.Failure? then prev
        else match Update(prev.table, e)
          case Failure(err) => Outcome(prev.table, Failure(err))
          case Success(t') => Outcome(t', Success(prev.result.value + [StoredAuthor(t', e.id)]))
  {
    assert (es + [e])[..|es|] == es;
  }

  /** The entity with id k that `es` writes last, if any. */
  function LastWriter(es: seq<Author>, k: string): (w: Option<Author>)
    ensures w.Some? ==> w.value in es && w.value.id == Some(k)
  {
    if es == [] then None
    else if es[|es| - 1].id == Some(k) then Some(es[|es| - 1])
    else LastWriter(es[..|es| - 1], k)
  }

  /** `saveAll` never adds or removes a row, whatever happens. */
  lemma {:induction false} SaveAllKeepsKeys(t: Table, es: seq<Author>)
    ensures SaveAllOutcome(t, es).table.Keys == t.Keys
  {
    if es != [] {
      SaveAllKeepsKeys(t, es[..|es| - 1]);
    }
  }

  /** Once an entity fails, the entities after it are not looked at. */
  lemma {:induction false} SaveAllStopsAtFailure(t: Table, es: seq<Author>, k: nat)
    requires k <= |es| && SaveAllOutcome(t, es[..k]).result.Failure?
    ensures SaveAllOutcome(t, es) == SaveAllOutcome(t, es[..k])
    decreases |es| - k
  {
    if k < |es| {
      var init := es[..|es| - 1];
      assert init[..k] == es[..k];
      SaveAllStopsAtFailure(t, init, k);
    } else {
      assert es[..k] == es;
    }
  }

  /** `saveAll` returns normally exactly when every entity is writable against the original table. */
  lemma {:induction false} SaveAllSucceedsIff(t: Table, es: seq<Author>)
    ensures SaveAllOutcome(t, es).result.Success? <==> forall i :: 0 <= i < |es| ==> Writable(t, es[i])
  {
    if es != [] {
      var init, e := es[..|es| - 1], es[|es| - 1];
      SaveAllSucceedsIff(t, init);
      SaveAllKeepsKeys(t, init);
      assert Writable(SaveAllOutcome(t, init).table, e) <==> Writable(t, e);
      assert (forall i :: 0 <= i < |es| ==> Writable(t, es[i]))
        <==> (forall i :: 0 <= i < |init| ==> Writable(t, init[i])) && Writable(t, e);
    }
  }

  /**
   * A failing `saveAll` is not atomic: it threw at some entity k, the first that
   * is not writable, and the table keeps the updates of entities 0..k-1.
   */
  lemma {:induction false} SaveAllFailureKeepsEarlierUpdates(t: Table, es: seq<Author>)
    requires SaveAllOutcome(t, es).result.Failure?
    ensures exists k :: (0 <= k < |es|
      && SaveAllOutcome(t, es[..k]).result.Success?
      && !Writable(t, es[k])
      && SaveAllOutcome(t, es).table == SaveAllOutcome(t, es[..k]).table
      && SaveAllOutcome(t, es).result.error == (if es[k].birthDate.None? then NullPointer else StorageError))
  {
    var init, e := es[..|es| - 1], es[|es| - 1];
    var prev := SaveAllOutcome(t, init);
    if prev.result.Failure? {
      SaveAllFailureKeepsEarlierUpdates(t, init);
      var k :| 0 <= k < |init|
        && SaveAllOutcome(t, init[..k]).result.Success?
        && !Writable(t, init[k])
        && prev.table == SaveAllOutcome(t, init[..k]).table
        && prev.result.error == (if init[k].birthDate.None? then NullPointer else StorageError);
      assert init[..k] == es[..k];
    } else {
      SaveAllKeepsKeys(t, init);
      assert Writable(prev.table, e) <==> Writable(t, e);
      assert es[..|es| - 1] == init;
    }
  }

  /** Element i of the result is what `findById(es[i].id)` reads right after the i-th update. */
  lemma {:induction false} SaveAllReadsBack(t: Table, es: seq<Author>)
    requires SaveAllOutcome(t, es).result.Success?
    ensures |SaveAllOutcome(t, es).result.value| == |es|
    ensures forall i :: 0 <= i < |es| ==>
      SaveAllOutcome(t, es).result.value[i] == StoredAuthor(SaveAllOutcome(t, es[..i + 1]).table, es[i].id)
  {
    if es != [] {
      ReadBackAt(t, es, 0);
    }
    forall i | 0 <= i < |es|
      ensures SaveAllOutcome(t, es).result.value[i] == StoredAuthor(SaveAllOutcome(t, es[..i + 1]).table, es[i].id)
    {
      ReadBackAt(t, es, i);
    }
  }

  /** Element i of the result is what `findById` reads right after the i-th update. */
  lemma {:induction false} ReadBackAt(t: Table, es: seq<Author>, i: nat)
    requires SaveAllOutcome(t, es).result.Success? && i < |es|
    ensures |SaveAllOutcome(t, es).result.value| == |es|
    ensures SaveAllOutcome(t, es).result.value[i] == StoredAuthor(SaveAllOutcome(t, es[..i + 1]).table, es[i].id)
  {
    var init, e := es[..|es| - 1], es[|es| - 1];
    assert es == init + [e];
    SaveAllSnoc(t, init, e);
    var prev := SaveAllOutcome(t, init);
    assert prev.result.Success?;
    if i == |es| - 1 {
      if init != [] {
        ReadBackAt(t, init, 0);
      }
      assert es[..i + 1] == es;
    } else {
      ReadBackAt(t, init, i);
      assert init[..i + 1] == es[..i + 1];
    }
  }

  /**
   * The result echoes every entity whose id is in the table, and holds a bare
   * `new Author()` for every other one: nothing is inserted.
   */
  lemma {:induction false} SaveAllEchoes(t: Table, es: seq<Author>)
    requires SaveAllOutcome(t, es).result.Success?
    ensures |SaveAllOutcome(t, es).result.value| == |es|
    ensures forall i :: 0 <= i < |es| ==>
      SaveAllOutcome(t, es).result.value[i] == if Present(t, es[i].id) then es[i] else EmptyAuthor
  {
    if es != [] {
      var init, e := es[..|es| - 1], es[|es| - 1];
      SaveAllEchoes(t, init);
      SaveAllKeepsKeys(t, init);
      assert Present(SaveAllOutcome(t, init).table, e.id) <==> Present(t, e.id);
    }
  }

  /**
   * After a normal return, `findById(k)` for a row k of the table yields the
   * last entity of the input with id k, and the row is untouched when no entity has that id.
   */
  lemma {:induction false} SaveAllLastWriteWins(t: Table, es: seq<Author>)
    requires SaveAllOutcome(t, es).result.Success?
    ensures forall k :: k in t ==>
      StoredAuthor(SaveAllOutcome(t, es).table, Some(k)) == LastWriter(es, k).GetOr(StoredAuthor(t, Some(k)))
  {
    if es != [] {
      var init, e := es[..|es| - 1], es[|es| - 1];
      var prev := SaveAllOutcome(t, init);
      SaveAllLastWriteWins(t, init);
      SaveAllKeepsKeys(t, init);
      var t1 := SaveAllOutcome(t, es).table;
      assert t1 == Update(prev.table, e).value;
      forall k | k in t
        ensures StoredAuthor(t1, Some(k)) == LastWriter(es, k).GetOr(StoredAuthor(t, Some(k)))
      {
        if Some(k) != e.id {
          assert t1[k] == prev.table[k];
          assert LastWriter(es, k) == LastWriter(init, k);
        }
      }
    }
  }

  /** What `saveAll` returns or throws depends on the table only through the set of ids in it. */
  lemma {:induction false} SaveAllResultDependsOnIds(t: Table, u: Table, es: seq<Author>)
    requires t.Keys == u.Keys
    ensures SaveAllOutcome(t, es).result == SaveAllOutcome(u, es).result
  {
    if es != [] {
      var init, e := es[..|es| - 1], es[|es| - 1];
      SaveAllResultDependsOnIds(t, u, init);
      SaveAllKeepsKeys(t, init);
      SaveAllKeepsKeys(u, init);
      assert Present(SaveAllOutcome(t, init).table, e.id) <==> Present(SaveAllOutcome(u, init).table, e.id);
    }
  }

  /** Saving the same list again returns the same list and leaves the table as the first call left it. */
  lemma SaveAllIdempotent(t: Table, es: seq<Author>)
    requires SaveAllOutcome(t, es).result.Success?
    ensures SaveAllOutcome(SaveAllOutcome(t, es).table, es) == SaveAllOutcome(t, es)
  {
    var t1 := SaveAllOutcome(t, es).table;
    SaveAllKeepsKeys(t, es);
    SaveAllResultDependsOnIds(t, t1, es);
    var t2 := SaveAllOutcome(t1, es).table;
    SaveAllKeepsKeys(t1, es);
    forall k | k in t1
      ensures t2[k] == t1[k]
    {
      SaveAgainKeepsRow(t, es, k);
    }
    assert t2 == t1;
  }

  /** The second call leaves row k as the first call left it. */
  lemma SaveAgainKeepsRow(t: Table, es: seq<Author>, k: string)
    requires SaveAllOutcome(t, es).result.Success? && k in t
    ensures k in SaveAllOutcome(t, es).table
    ensures var t1 := SaveAllOutcome(t, es).table;
      SaveAllOutcome(t1, es).result.Success? && k in SaveAllOutcome(t1, es).table
      && SaveAllOutcome(t1, es).table[k] == t1[k]
  {
    var t1 := SaveAllOutcome(t, es).table;
    SaveAllKeepsKeys(t, es);
    SaveAllResultDependsOnIds(t, t1, es);
    var t2 := SaveAllOutcome(t1, es).table;
    SaveAllKeepsKeys(t1, es);
    SaveAllLastWriteWins(t, es);
    SaveAllLastWriteWins(t1, es);
    var a2, a1 := StoredAuthor(t2, Some(k)), StoredAuthor(t1, Some(k));
    assert a1 == LastWriter(es, k).GetOr(StoredAuthor(t, Some(k)));
    assert a2 == LastWriter(es, k).GetOr(a1);
    assert a2.name == Some(t2[k].name) && a1.name == Some(t1[k].name);
    assert a2.birthDate == Some(t2[k].birthDate) && a1.birthDate == Some(t1[k].birthDate);
  }

  /** For an id already in the table, saving an entity and reading it back gives the entity. */
  lemma SaveThenFind(t: Table, e: Author)
    requires Complete(e) && e.id.value in t
    ensures SaveAllOutcome(t, [e]).result == Success([e])
    ensures StoredAuthor(SaveAllOutcome(t, [e]).table, e.id) == e
  {
    var empty: seq<Author> := [];
    assert SaveAllOutcome(t, empty) == Outcome(t, Success([]));
    SaveAllSnoc(t, empty, e);
    assert empty + [e] == [e];
  }

  /**
   * For an id not in the table, `saveAll([e])` does not create the row: the table is
   * unchanged and the result holds a bare `new Author()` instead of e.
   */
  lemma SaveAllDoesNotInsert(t: Table, e: Author)
    requires e.birthDate.Some? && !Present(t, e.id)
    ensures SaveAllOutcome(t, [e]) == Outcome(t, Success([EmptyAuthor]))
  {
    assert Update(t, e) == Success(t);
    assert StoredAuthor(t, e.id) == EmptyAuthor;
    var empty: seq<Author> := [];
    assert SaveAllOutcome(t, empty) == Outcome(t, Success([]));
    SaveAllSnoc(t, empty, e);
    assert empty + [e] == [e];
    assert empty + [EmptyAuthor] == [EmptyAuthor];
  }

  /** The create-then-read expectation for a new id does not hold: the returned list differs from `[e]`. */
  lemma CreateIsNotReadBack(t: Table, e: Author)
    requires Complete(e) && e.id.value !in t
    ensures SaveAllOutcome(t, [e]).result != Success([e])
    ensures e.id.value !in SaveAllOutcome(t, [e]).table
  {
    SaveAllDoesNotInsert(t, e);
  }
}

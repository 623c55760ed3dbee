/**
 * The SQL text and bound parameters that `getAll` and `findByCriteria` prepare:
 * a fixed SELECT, one fragment per recognised criterion, an optional verbatim
 * ORDER BY, and `LIMIT ? OFFSET ?` bound to a window computed in Java `int`.
 */
module QueryText {
  import opened Results
  import opened JavaInt
  import opened Entities

  const SelectColumns: string := "SELECT a.id, a.name, a.birth_date"
  const FromAuthor: string := " FROM author a"
  const SelectAuthors: string := SelectColumns + FromAuthor
  const WhereAll: string := " WHERE 1=1"
  const LimitOffset: string := " LIMIT ? OFFSET ?"
  const PagePrefix: string := "page must be greater than 0 but actual is "

  /** A prepared statement: its text and the two integers bound to `LIMIT ?` and `OFFSET ?`. */
  datatype Query = Query(sql: string, limit: Int32, offset: Int32)

  /** The message of the IllegalArgumentException thrown for a page below 1. */
  function PageMessage(page: int): string {
    PagePrefix + IntToString(page)
  }

  /** The exception message names the page: two pages give the same message only if they are equal. */
  lemma PageMessageDeterminesPage(p: int, q: int)
    requires PageMessage(p) == PageMessage(q)
    ensures p == q
  {
    assert IntToString(p) == PageMessage(p)[|PagePrefix|..];
    assert IntToString(q) == PageMessage(q)[|PagePrefix|..];
    IntToStringInjective(p, q);
  }

  /** The text one criterion adds to the WHERE clause; other columns add nothing. */
  function Fragment(c: Criterion): string {
    if c.column == "name" then " AND a.name ILIKE '%" + c.value + "%'"
    else if c.column == "birth_date" then " OR a.birth_date = '" + c.value + "'"
    else ""
  }

  predicate Recognised(c: Criterion) {
    c.column == "name" || c.column == "birth_date"
  }

  lemma AppendAssociative(a: string, b: string, c: string)
    ensures (a + b) + c == a + (b + c)
  {
  }

  /** The concatenation of `f(x)` for every `x` of `xs`, left to right. */
  function Concat<T>(f: T -> string, xs: seq<T>): string {
    if xs == [] then "" else Concat(f, xs[..|xs| - 1]) + f(xs[|xs| - 1])
  }

  lemma ConcatSnoc<T>(f: T -> string, xs: seq<T>, x: T)
    ensures Concat(f, xs + [x]) == Concat(f, xs) + f(x)
  {
    assert (xs + [x])[..|xs|] == xs;
  }

  lemma {:induction false} ConcatAppend<T>(f: T -> string, a: seq<T>, b: seq<T>)
    ensures Concat(f, a + b) == Concat(f, a) + Concat(f, b)
    decreases |b|
  {
    if b == [] {
      assert a + b == a;
    } else {
      var b', x := b[..|b| - 1], b[|b| - 1];
      assert b == b' + [x];
      assert a + b == (a + b') + [x];
      ConcatAppend(f, a, b');
      ConcatSnoc(f, a + b', x);
      ConcatSnoc(f, b', x);
    }
  }

  /** The WHERE-clause text a criteria list adds after `1=1`, one fragment per criterion. */
  function Fragments(cs: seq<Criterion>): string {
    Concat(Fragment, cs)
  }

  /** Appending one criterion appends its fragment. */
  lemma FragmentsSnoc(cs: seq<Criterion>, c: Criterion)
    ensures Fragments(cs + [c]) == Fragments(cs) + Fragment(c)
  {
    ConcatSnoc(Fragment, cs, c);
  }

  /** The criteria contribute their fragments in list order. */
  lemma FragmentsAppend(a: seq<Criterion>, b: seq<Criterion>)
    ensures Fragments(a + b) == Fragments(a) + Fragments(b)
  {
    ConcatAppend(Fragment, a, b);
  }

  /** A list without `name` or `birth_date` criteria leaves the query as `... WHERE 1=1`. */
  lemma {:induction false} FragmentsUnrecognised(cs: seq<Criterion>)
    requires forall i :: 0 <= i < |cs| ==> !Recognised(cs[i])
    ensures Fragments(cs) == ""
  {
    if cs != [] {
      var init := cs[..|cs| - 1];
      FragmentsUnrecognised(init);
      assert cs == init + [cs[|cs| - 1]];
      FragmentsSnoc(init, cs[|cs| - 1]);
    }
  }

  /** An ordering is applied exactly when `orderBy` is non-null and non-empty. */
  predicate HasOrderBy(orderBy: Option<string>) {
    orderBy.Some? && orderBy.value != ""
  }

  /** The ORDER BY part: the caller's text appended verbatim, or nothing. */
  function OrderClause(orderBy: Option<string>): (s: string)
    ensures HasOrderBy(orderBy) ==> s == " ORDER BY " + orderBy.value
    ensures !HasOrderBy(orderBy) ==> s == ""
  {
    if HasOrderBy(orderBy) then " ORDER BY " + orderBy.value else ""
  }

  /** Whether `part` occurs in `s`, starting at some position. */
  predicate Contains(s: string, part: string) {
    exists i :: 0 <= i <= |s| && part <= s[i..]
  }

  /** Text that lacks one of the characters of `part` does not contain `part`. */
  lemma MissingCharNotContained(s: string, part: string, j: nat)
    requires j < |part| && part[j] !in s
    ensures !Contains(s, part)
  {
    forall i | 0 <= i <= |s|
      ensures !(part <= s[i..])
    {
      if i + j < |s| {
        assert s[i..][j] == s[i + j];
      }
    }
  }

  /** An ordering present in the text of a statement shows up as ` ORDER BY `, whatever comes before it. */
  lemma OrderByAfter(prefix: string, orderBy: Option<string>)
    requires HasOrderBy(orderBy)
    ensures Contains(prefix + OrderClause(orderBy) + LimitOffset, " ORDER BY ")
  {
    var s := prefix + OrderClause(orderBy) + LimitOffset;
    assert s[|prefix|..] == " ORDER BY " + (orderBy.value + LimitOffset);
  }

  /** The statement `getAll` prepares sorts exactly when `orderBy` is non-null and non-empty. */
  lemma GetAllOrdersIff(orderBy: Option<string>)
    ensures Contains(SelectAuthors + OrderClause(orderBy) + LimitOffset, " ORDER BY ") <==> HasOrderBy(orderBy)
  {
    if HasOrderBy(orderBy) {
      OrderByAfter(SelectAuthors, orderBy);
    } else {
      var s: string := SelectAuthors + LimitOffset;
      assert SelectAuthors + OrderClause(orderBy) + LimitOffset == s;
      var orderBy': string := " ORDER BY ";
      assert orderBy'[8] == 'Y';
      assert 'Y' !in SelectColumns && 'Y' !in FromAuthor && 'Y' !in LimitOffset;
      MissingCharNotContained(s, orderBy', 8);
    }
  }

  /** The statement `findByCriteria` prepares carries ` ORDER BY ` whenever `orderBy` is non-null and non-empty. */
  lemma FindByCriteriaOrders(criteria: seq<Criterion>, orderBy: Option<string>)
    requires HasOrderBy(orderBy)
    ensures Contains(SelectAuthors + WhereAll + Fragments(criteria) + OrderClause(orderBy) + LimitOffset, " ORDER BY ")
  {
    OrderByAfter(SelectAuthors + WhereAll + Fragments(criteria), orderBy);
  }

  /** Text that occurs in the middle part of a concatenation occurs in the whole. */
  lemma ContainsInMiddle(a: string, b: string, c: string, part: string)
    requires Contains(b, part)
    ensures Contains(a + b + c, part)
  {
    var i :| 0 <= i <= |b| && part <= b[i..];
    var s := a + b + c;
    assert s[|a| + i..] == b[i..] + c;
  }

  /**
   * The converse fails for `findByCriteria`: a criterion value is spliced into the
   * text unescaped, so a `name` value holding ` ORDER BY ` puts it there while
   * `orderBy` is null.
   */
  lemma CriterionValueCanAddOrderBy(value: string)
    requires Contains(value, " ORDER BY ")
    ensures Contains(SelectAuthors + WhereAll + Fragments([Criterion("name", value)]) + OrderClause(None) + LimitOffset,
                     " ORDER BY ")
  {
    var c := Criterion("name", value);
    var empty: seq<Criterion> := [];
    FragmentsSnoc(empty, c);
    assert empty + [c] == [c];
    assert Fragments(empty) == "";
    assert Fragments([c]) == Fragment(c);
    var select: string := SelectAuthors + WhereAll;
    var open: string, close: string := " AND a.name ILIKE '%", "%'";
    assert Fragment(c) == open + value + close;
    assert OrderClause(None) == "";
    assert select + Fragment(c) + OrderClause(None) == select + Fragment(c);
    AppendAssociative(select, open + value, close);
    AppendAssociative(select, open, value);
    var middle := select + open + value;
    assert select + Fragment(c) == middle + close;
    AppendAssociative(middle, close, LimitOffset);
    var text := SelectAuthors + WhereAll + Fragments([c]) + OrderClause(None) + LimitOffset;
    assert text == middle + (close + LimitOffset);
    ContainsInMiddle(select + open, value, close + LimitOffset, " ORDER BY ");
  }

  /**
   * The value bound to `OFFSET ?`: `size * (page - 1)` in Java `int`, so it wraps
   * around when the product leaves the 32-bit range.
   */
  function Offset(page: Int32, size: Int32): (offset: Int32)
    requires 1 <= page
    ensures MinInt32 <= size * (page - 1) <= MaxInt32 ==> offset == size * (page - 1)
    ensures page == 1 ==> offset == 0
    ensures (offset - size * (page - 1)) % 0x1_0000_0000 == 0
  {
    Wrap32(size * (page - 1))
  }

  /** Page 32769 of size 65536 binds a negative offset: the product is 2^31. */
  lemma OffsetWrapsAround()
    ensures Offset(32769, 65536) == MinInt32
  {
    assert 65536 * (32769 - 1) == MaxInt32 + 1;
  }
}

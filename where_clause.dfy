/**
 * What the WHERE clause built by `findByCriteria` selects. The clause is
 * `1=1` followed by one term per recognised criterion: `AND <name match>` for
 * a `name` criterion, `OR <date match>` for a `birth_date` criterion. SQL binds
 * AND tighter than OR, so the clause reads as an OR of AND-groups, the first
 * group starting with the always-true `1=1`.
 */
module WhereClause {
  import opened Results
  import opened Entities
  import opened QueryText

  datatype Connective = And | Or

  /** `a.name ILIKE '%pattern%'` or `a.birth_date = 'date'`. */
  datatype Atom = NameLike(pattern: string) | BirthDateIs(date: Date)

  datatype Term = Term(conn: Connective, atom: Atom)

  /** The term a criterion contributes, when its column is recognised. */
  function TermOf(c: Criterion): (t: Option<Term>)
    ensures t.Some? <==> Recognised(c)
  {
    if c.column == "name" then Some(Term(And, NameLike(c.value)))
    else if c.column == "birth_date" then Some(Term(Or, BirthDateIs(c.value)))
    else None
  }

  /** The terms of a criteria list, in list order. */
  function Terms(cs: seq<Criterion>): seq<Term> {
    if cs == [] then []
    else
      var ts := Terms(cs[..|cs| - 1]);
      match TermOf(cs[|cs| - 1])
      case None => ts
      case Some(t) => ts + [t]
  }

  function RenderTerm(t: Term): string {
    match t
    case Term(And, NameLike(p)) => " AND a.name ILIKE '%" + p + "%'"
    case Term(Or, BirthDateIs(d)) => " OR a.birth_date = '" + d + "'"
    case Term(And, BirthDateIs(d)) => " AND a.birth_date = '" + d + "'"
    case Term(Or, NameLike(p)) => " OR a.name ILIKE '%" + p + "%'"
  }

  /** The text after `WHERE 1=1` is exactly the rendering of the terms: the terms are what the query says. */
  lemma {:induction false} RenderTerms(cs: seq<Criterion>)
    ensures Concat(RenderTerm, Terms(cs)) == Fragments(cs)
  {
    if cs != [] {
      var init, c := cs[..|cs| - 1], cs[|cs| - 1];
      assert cs == init + [c];
      RenderTerms(init);
      FragmentsSnoc(init, c);
      if TermOf(c).Some? {
        ConcatSnoc(RenderTerm, Terms(init), TermOf(c).value);
      }
    }
  }

  lemma {:induction false} TermsAppend(a: seq<Criterion>, b: seq<Criterion>)
    ensures Terms(a + b) == Terms(a) + Terms(b)
    decreases |b|
  {
    if b == [] {
      assert a + b == a;
    } else {
      var b', c := b[..|b| - 1], b[|b| - 1];
      assert b == b' + [c];
      assert (a + b)[..|a + b| - 1] == a + b';
      TermsAppend(a, b');
    }
  }

  lemma TermsOne(c: Criterion)
    ensures Terms([c]) == if TermOf(c).Some? then [TermOf(c).value] else []
  {
    assert [c][..0] == [];
  }

  /** The first term comes from the first recognised criterion. */
  lemma {:induction false} TermsHead(cs: seq<Criterion>, k: nat)
    requires k < |cs| && Recognised(cs[k])
    requires forall j :: 0 <= j < k ==> !Recognised(cs[j])
    ensures Terms(cs) != [] && Terms(cs)[0] == TermOf(cs[k]).value
  {
    var init := cs[..|cs| - 1];
    if k == |cs| - 1 {
      TermsUnrecognised(init);
    } else {
      TermsHead(init, k);
    }
  }

  lemma {:induction false} TermsUnrecognised(cs: seq<Criterion>)
    requires forall i :: 0 <= i < |cs| ==> !Recognised(cs[i])
    ensures Terms(cs) == []
  {
    if cs != [] {
      TermsUnrecognised(cs[..|cs| - 1]);
    }
  }

  /** ILIKE's case folding, on the ASCII letters. */
  function LowerChar(c: char): char {
    if 'A' <= c <= 'Z' then (c as int + 32) as char else c
  }

  function Lower(s: string): (r: string)
    ensures |r| == |s| && forall i :: 0 <= i < |s| ==> r[i] == LowerChar(s[i])
  {
    seq(|s|, i requires 0 <= i < |s| => LowerChar(s[i]))
  }

  /** Whether a row satisfies one atom: `ILIKE '%p%'` is a case-insensitive substring test. */
  predicate Holds(a: Atom, row: Row) {
    match a
    case NameLike(p) => Contains(Lower(row.name), Lower(p))
    case BirthDateIs(d) => row.birthDate == d
  }

  /**
   * The AND-groups of `1=1 t1 t2 ...` under SQL precedence: an AND term joins
   * the current group, an OR term opens a new one. The first group holds the
   * atoms that follow `1=1` before the first OR.
   */
  function Groups(ts: seq<Term>): (gs: seq<seq<Atom>>)
    ensures |gs| >= 1
    ensures ts != [] && ts[0].conn == Or ==> |gs| >= 2 && gs[0] == []
  {
    if ts == [] then [[]]
    else
      var gs := Groups(ts[..|ts| - 1]);
      var t := ts[|ts| - 1];
      if t.conn == And then gs[..|gs| - 1] + [gs[|gs| - 1] + [t.atom]]
      else gs + [[t.atom]]
  }

  lemma GroupsSnoc(ts: seq<Term>, t: Term)
    ensures var gs := Groups(ts);
      Groups(ts + [t]) == if t.conn == And then gs[..|gs| - 1] + [gs[|gs| - 1] + [t.atom]] else gs + [[t.atom]]
  {
    assert (ts + [t])[..|ts|] == ts;
  }

  predicate AllHold(g: seq<Atom>, row: Row) {
    forall j :: 0 <= j < |g| ==> Holds(g[j], row)
  }

  /** Whether the WHERE clause with these terms selects the row. */
  predicate Matches(ts: seq<Term>, row: Row) {
    var gs := Groups(ts);
    exists i :: 0 <= i < |gs| && AllHold(gs[i], row)
  }

  lemma GroupsOfNameThenDate(p: string, d: Date)
    ensures Groups([Term(And, NameLike(p)), Term(Or, BirthDateIs(d))]) == [[NameLike(p)], [BirthDateIs(d)]]
  {
    var t0, t1 := Term(And, NameLike(p)), Term(Or, BirthDateIs(d));
    var empty: seq<Term> := [];
    assert Groups(empty) == [[]];
    GroupsSnoc(empty, t0);
    assert empty + [t0] == [t0];
    var g1 := Groups([t0]);
    var none: seq<Atom> := [];
    var g0: seq<seq<Atom>> := [none];
    assert g1 == g0[..0] + [none + [t0.atom]];
    assert g0[..0] == [];
    assert none + [t0.atom] == [NameLike(p)];
    assert g1 == [[NameLike(p)]];
    GroupsSnoc([t0], t1);
    assert [t0] + [t1] == [t0, t1];
  }

  /**
   * A `name` criterion followed by a `birth_date` criterion selects the rows whose
   * name contains the pattern in any case, or whose birth date is the given one.
   */
  lemma NameThenBirthDate(p: string, d: Date, row: Row)
    ensures Matches(Terms([Criterion("name", p), Criterion("birth_date", d)]), row)
        <==> Holds(NameLike(p), row) || row.birthDate == d
  {
    var c0, c1 := Criterion("name", p), Criterion("birth_date", d);
    TermsAppend([c0], [c1]);
    TermsOne(c0);
    TermsOne(c1);
    assert [c0] + [c1] == [c0, c1];
    var ts := Terms([c0, c1]);
    assert ts == [Term(And, NameLike(p)), Term(Or, BirthDateIs(d))];
    GroupsOfNameThenDate(p, d);
    var gs := Groups(ts);
    if Matches(ts, row) {
      var i :| 0 <= i < |gs| && AllHold(gs[i], row);
      assert Holds(gs[i][0], row);
    }
    if Holds(NameLike(p), row) {
      assert AllHold(gs[0], row);
    }
    if row.birthDate == d {
      assert AllHold(gs[1], row);
    }
  }

  /**
   * The criteria of the repository's own test, `name` "rado" then `birth_date`
   * 2000-01-01, select the rows whose name contains "rado" in any case or whose
   * birth date is 2000-01-01.
   */
  lemma NameOrBirthDate(row: Row)
    ensures Matches(Terms([Criterion("name", "rado"), Criterion("birth_date", "2000-01-01")]), row)
        <==> Contains(Lower(row.name), "rado") || row.birthDate == "2000-01-01"
  {
    var p: string, d: Date := "rado", "2000-01-01";
    NameThenBirthDate(p, d, row);
    LowerOfLowerCase(p);
  }

  /** Folding text that holds no capital letter leaves it unchanged. */
  lemma LowerOfLowerCase(s: string)
    requires forall i :: 0 <= i < |s| ==> !('A' <= s[i] <= 'Z')
    ensures Lower(s) == s
  {
  }

  /**
   * When the first recognised criterion is a `birth_date` one, the clause starts
   * `1=1 OR ...` and selects every row, whatever follows: a date filter used on
   * its own, or placed before a name filter, filters nothing.
   */
  lemma LeadingBirthDateSelectsAll(cs: seq<Criterion>, k: nat, row: Row)
    requires k < |cs| && cs[k].column == "birth_date"
    requires forall j :: 0 <= j < k ==> !Recognised(cs[j])
    ensures Matches(Terms(cs), row)
  {
    TermsHead(cs, k);
    var gs := Groups(Terms(cs));
    assert AllHold(gs[0], row);
  }

  /** Every `name` pattern of the list occurs in the row's name, ignoring case. */
  predicate NamesHold(cs: seq<Criterion>, row: Row) {
    forall i :: 0 <= i < |cs| && cs[i].column == "name" ==> Holds(NameLike(cs[i].value), row)
  }

  lemma NamesHoldSnoc(cs: seq<Criterion>, c: Criterion, row: Row)
    ensures NamesHold(cs + [c], row) <==> NamesHold(cs, row) && (c.column == "name" ==> Holds(NameLike(c.value), row))
  {
    var cs' := cs + [c];
    assert cs'[|cs|] == c;
    assert forall i :: 0 <= i < |cs| ==> cs'[i] == cs[i];
  }

  lemma AllHoldSnoc(g: seq<Atom>, a: Atom, row: Row)
    ensures AllHold(g + [a], row) <==> AllHold(g, row) && Holds(a, row)
  {
    assert forall j :: 0 <= j < |g| ==> (g + [a])[j] == g[j];
    assert (g + [a])[|g|] == a;
  }

  /** An AND term joins the only group there is. */
  lemma GroupsAndOne(ts: seq<Term>, a: Atom)
    requires |Groups(ts)| == 1
    ensures Groups(ts + [Term(And, a)]) == [Groups(ts)[0] + [a]]
  {
    GroupsSnoc(ts, Term(And, a));
  }

  lemma {:induction false} NameCriteriaOneGroup(cs: seq<Criterion>, row: Row)
    requires forall i :: 0 <= i < |cs| ==> cs[i].column != "birth_date"
    ensures |Groups(Terms(cs))| == 1
    ensures AllHold(Groups(Terms(cs))[0], row) <==> NamesHold(cs, row)
  {
    if cs != [] {
      var init, c := cs[..|cs| - 1], cs[|cs| - 1];
      assert cs == init + [c];
      NameCriteriaOneGroup(init, row);
      NamesHoldSnoc(init, c, row);
      if c.column == "name" {
        var a := NameLike(c.value);
        assert Terms(cs) == Terms(init) + [Term(And, a)];
        GroupsAndOne(Terms(init), a);
        AllHoldSnoc(Groups(Terms(init))[0], a, row);
      } else {
        assert Terms(cs) == Terms(init);
      }
    }
  }

  /**
   * Without `birth_date` criteria the clause is a single AND-group: a row is
   * selected exactly when its name contains every `name` pattern.
   */
  lemma NameCriteriaConjunction(cs: seq<Criterion>, row: Row)
    requires forall i :: 0 <= i < |cs| ==> cs[i].column != "birth_date"
    ensures Matches(Terms(cs), row) <==> NamesHold(cs, row)
  {
    NameCriteriaOneGroup(cs, row);
    var gs := Groups(Terms(cs));
    if NamesHold(cs, row) {
      assert AllHold(gs[0], row);
    }
  }
}

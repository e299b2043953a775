/**
 * Queries as data. `select(model).filter_by(**f)` becomes a `Query` whose
 * `filters` is `f`; `.where(...)` appends a `Condition`; `.order_by(c.desc())`
 * and `.limit(n)` set `orderBy` and `limit`. `Run` is the database: it
 * evaluates a query over the rows a session sees.
 */
module Queries {
  import opened Wrappers
  import opened Records

  const CREATED_AT := "created_at"
  const ID := "id"

  /** A mapped model class: its name and the attribute names it maps to columns. */
  datatype Schema = Schema(name: string, columns: set<string>)

  /** The exceptions the repository layer raises on its own (besides the store's). */
  datatype Error =
    | NoSuchAttribute(names: set<string>)   // filter_by(**f) with a key the model does not map
    | InvalidKeyword(names: set<string>)    // model(**data) with a key the model does not map
    | MissingArgument(name: string)         // a call that leaves a positional parameter unbound

  /** One `.where(...)` clause. */
  datatype Condition =
    | AnyContains(columns: seq<string>, search: string)   // or_(c.ilike(f"%{search}%") for c in columns)
    | Between(column: string, low: Value, high: Value)    // column.between(low, high)

  datatype Query = Query(filters: Fields, where: seq<Condition>, orderBy: Option<string>, limit: Option<nat>)

  /** `select(model).filter_by(**filters)`; an unmapped key raises. */
  function Select(m: Schema, filters: Fields): (r: Result<Query, Error>)
    ensures r.Failure? <==> !(filters.Keys <= m.columns)
    ensures r.Failure? ==> r.error == NoSuchAttribute(filters.Keys - m.columns)
    ensures r.Success? ==> r.value == Query(filters, [], None, None)
  {
    if filters.Keys <= m.columns then Success(Query(filters, [], None, None))
    else Failure(NoSuchAttribute(filters.Keys - m.columns))
  }

  /** The column a listing is ordered by: the preferred one if the model maps
      it, else `id`, else none. */
  function OrderField(m: Schema, preferred: string): (r: Option<string>)
    ensures r.Some? ==> r.value in m.columns && (r.value == preferred || (preferred !in m.columns && r.value == ID))
    ensures r.None? <==> preferred !in m.columns && ID !in m.columns
  {
    if preferred in m.columns then Some(preferred)
    else if ID in m.columns then Some(ID)
    else None
  }

  /** The query of `get_list` and `get_paginated_list`. */
  function ListQuery(m: Schema, filters: Fields): Result<Query, Error>
  {
    match Select(m, filters)
    case Failure(e) => Failure(e)
    case Success(q) => Success(q.(orderBy := OrderField(m, CREATED_AT)))
  }

  /** The query of `get_last_entry`: `select(model).limit(1).filter_by(**f)`, ordered. */
  function LastEntryQuery(m: Schema, orderField: string, filters: Fields): Result<Query, Error>
  {
    match Select(m, filters)
    case Failure(e) => Failure(e)
    case Success(q) => Success(q.(limit := Some(1), orderBy := OrderField(m, orderField)))
  }

  // ---------------------------------------------------------------------
  // Evaluation
  // ---------------------------------------------------------------------

  function Lower(c: char): char
  {
    if 'A' <= c <= 'Z' then (c as int - 'A' as int + 'a' as int) as char else c
  }

  /** `lower()` on ASCII letters, character by character. */
  function Fold(s: string): (r: string)
    ensures |r| == |s| && forall i :: 0 <= i < |s| ==> r[i] == Lower(s[i])
  {
    if s == [] then [] else [Lower(s[0])] + Fold(s[1..])
  }

  /** `p` occurs in `t`. */
  predicate Contains(t: string, p: string)
  {
    p <= t || (t != [] && Contains(t[1..], p))
  }

  /** `v ILIKE '%search%'`: a text that contains `search`, ignoring ASCII case. */
  predicate ILike(v: Value, search: string)
  {
    v.Str? && Contains(Fold(v.s), Fold(search))
  }

  predicate Holds(c: Condition, r: Record)
  {
    match c
    case AnyContains(cols, search) => exists i :: 0 <= i < |cols| && ILike(Get(r, cols[i]), search)
    case Between(col, low, high) => Get(r, col) != Null && Le(low, Get(r, col)) && Le(Get(r, col), high)
  }

  /** The row satisfies the query's filters and every where-clause. */
  predicate Admits(q: Query, r: Record)
  {
    Matches(r, q.filters) && forall i :: 0 <= i < |q.where| ==> Holds(q.where[i], r)
  }

  /** The rows the query admits, in store order. */
  function Where(q: Query, rows: seq<Record>): (r: seq<Record>)
    ensures forall x :: multiset(r)[x] == if Admits(q, x) then multiset(rows)[x] else 0
  {
    if rows == [] then []
    else
      assert rows == [rows[0]] + rows[1..];
      (if Admits(q, rows[0]) then [rows[0]] else []) + Where(q, rows[1..])
  }

  /** What executing the query returns. */
  function Run(q: Query, rows: seq<Record>): seq<Record>
  {
    var hits := Where(q, rows);
    var ordered := if q.orderBy.Some? then SortDesc(hits, q.orderBy.value) else hits;
    if q.limit.Some? && q.limit.value < |ordered| then ordered[..q.limit.value] else ordered
  }

  /** Lemma: a query without `limit` returns every admitted row once for each
      time it is stored, sorted when it is ordered. */
  lemma RunUnlimited(q: Query, rows: seq<Record>)
    requires q.limit.None?
    ensures forall x :: multiset(Run(q, rows))[x] == if Admits(q, x) then multiset(rows)[x] else 0
    ensures q.orderBy.Some? ==> SortedDesc(Run(q, rows), q.orderBy.value)
  {
    if q.orderBy.Some? {
      SortDescSorted(Where(q, rows), q.orderBy.value);
    }
  }

  /** Lemma: a query with `limit(1)` returns nothing exactly when no row is
      admitted, and otherwise one admitted row. */
  lemma RunFirst(q: Query, rows: seq<Record>)
    requires q.limit == Some(1)
    ensures |Run(q, rows)| <= 1
    ensures Run(q, rows) == [] <==> forall x :: x in rows ==> !Admits(q, x)
    ensures Run(q, rows) != [] ==> Run(q, rows)[0] in rows && Admits(q, Run(q, rows)[0])
  {
    var hits := Where(q, rows);
    var ordered := if q.orderBy.Some? then SortDesc(hits, q.orderBy.value) else hits;
    assert multiset(ordered) == multiset(hits);
    assert Run(q, rows) == if 1 < |ordered| then ordered[..1] else ordered;
    forall x | x in rows && Admits(q, x) ensures x in ordered {
      assert multiset(hits)[x] == multiset(rows)[x];
    }
    if ordered != [] {
      assert ordered[0] in multiset(hits);
      assert Run(q, rows)[0] == ordered[0];
    }
  }

  /** Lemma: with `limit(1)` and an ordering column, the row returned is
      greatest in that column among the admitted rows. */
  lemma RunFirstGreatest(q: Query, rows: seq<Record>, x: Record)
    requires q.limit == Some(1) && q.orderBy.Some?
    requires x in rows && Admits(q, x)
    ensures Run(q, rows) != [] && Le(Get(x, q.orderBy.value), Get(Run(q, rows)[0], q.orderBy.value))
  {
    var k := q.orderBy.value;
    var hits := Where(q, rows);
    var sorted := SortDesc(hits, k);
    assert multiset(hits)[x] == multiset(rows)[x];
    assert x in multiset(sorted);
    assert Run(q, rows)[0] == sorted[0];
    SortDescSorted(hits, k);
    HeadIsGreatest(sorted, k, x);
  }

  /** Lemma: with `limit(1)` and no ordering column, the row returned is the
      first admitted row in store order. */
  lemma RunFirstUnordered(q: Query, rows: seq<Record>)
    requires q.limit == Some(1) && q.orderBy.None?
    requires Run(q, rows) != []
    ensures exists i :: 0 <= i < |rows| && rows[i] == Run(q, rows)[0] && forall j :: 0 <= j < i ==> !Admits(q, rows[j])
  {
    WhereHead(q, rows);
  }

  /** The first row `Where` returns is the first admitted row of the store. */
  lemma {:induction false} WhereHead(q: Query, rows: seq<Record>)
    requires Where(q, rows) != []
    ensures exists i :: 0 <= i < |rows| && rows[i] == Where(q, rows)[0] && forall j :: 0 <= j < i ==> !Admits(q, rows[j])
  {
    if Admits(q, rows[0]) {
      assert rows[0] == Where(q, rows)[0];
    } else {
      WhereHead(q, rows[1..]);
      var i :| 0 <= i < |rows[1..]| && rows[1..][i] == Where(q, rows[1..])[0] && forall j :: 0 <= j < i ==> !Admits(q, rows[1..][j]);
      assert rows[i + 1] == Where(q, rows)[0];
      forall j | 0 <= j < i + 1 ensures !Admits(q, rows[j]) {
        if j > 0 { assert rows[j] == rows[1..][j - 1]; }
      }
    }
  }

  // ---------------------------------------------------------------------
  // _apply_search_filter and _apply_date_filter
  // ---------------------------------------------------------------------

  /** An entry of `fields`: an attribute name, or a column expression that may
      or may not offer `.ilike`. */
  datatype SearchField = Named(name: string) | Expression(column: string, hasIlike: bool)

  /** Whether one entry of `fields` joins the OR-condition, and on which column. */
  predicate Usable(m: Schema, f: SearchField)
  {
    match f
    case Named(n) => n in m.columns
    case Expression(_, hasIlike) => hasIlike
  }

  function ColumnOf(f: SearchField): string
  {
    match f
    case Named(n) => n
    case Expression(c, _) => c
  }

  /** The columns of the OR-condition: the usable entries of `fields`, in order. */
  function SearchColumns(m: Schema, fields: seq<SearchField>): (r: seq<string>)
    ensures |r| <= |fields|
    ensures forall c :: c in r <==> exists i :: 0 <= i < |fields| && Usable(m, fields[i]) && ColumnOf(fields[i]) == c
  {
    if fields == [] then []
    else
      var rest := SearchColumns(m, fields[1..]);
      assert forall i :: 1 <= i < |fields| ==> fields[i] == fields[1..][i - 1];
      if Usable(m, fields[0]) then [ColumnOf(fields[0])] + rest else rest
  }

  /** `_apply_search_filter`: without a search text or without fields the query
      is returned as it is; otherwise one OR-condition over the usable fields
      is added, if there is any. */
  method ApplySearchFilter(m: Schema, q: Query, search: Option<string>, fields: Option<seq<SearchField>>)
    returns (r: Query)
    ensures search.None? || search.value == "" || fields.None? || fields.value == [] ==> r == q
    ensures search.Some? && search.value != "" && fields.Some? ==>
      var cols := SearchColumns(m, fields.value);
      r == if cols == [] then q else q.(where := q.where + [AnyContains(cols, search.value)])
  {
    if search.None? || search.value == "" || fields.None? || fields.value == [] {
      return q;
    }
    var terms: seq<string> := [];
    var i := |fields.value|;
    while i > 0
      invariant 0 <= i <= |fields.value|
      invariant terms == SearchColumns(m, fields.value[i..])
    {
      i := i - 1;
      assert fields.value[i..][1..] == fields.value[i + 1..];
      var f := fields.value[i];
      if f.Named? && f.name in m.columns {
        terms := [f.name] + terms;
      } else if f.Expression? && f.hasIlike {
        terms := [f.column] + terms;
      }
    }
    assert fields.value[0..] == fields.value;
    r := q;
    if terms != [] {
      r := q.(where := q.where + [AnyContains(terms, search.value)]);
    }
  }

  /** Lemma: after `_apply_search_filter` a row is admitted exactly when it was
      admitted before and, if a condition was added, one of the participating
      columns contains the search text. */
  lemma SearchFilterAdmits(m: Schema, q: Query, search: string, fields: seq<SearchField>, x: Record)
    requires search != "" && fields != []
    ensures var cols := SearchColumns(m, fields);
      var r := if cols == [] then q else q.(where := q.where + [AnyContains(cols, search)]);
      Admits(r, x) <==> Admits(q, x) && (cols == [] || exists i :: 0 <= i < |fields| && Usable(m, fields[i]) && ILike(Get(x, ColumnOf(fields[i])), search))
  {
    var cols := SearchColumns(m, fields);
    if cols != [] {
      var r := q.(where := q.where + [AnyContains(cols, search)]);
      var c := AnyContains(cols, search);
      assert r.where[|q.where|] == c;
      if Admits(r, x) {
        assert Holds(c, x);
        var k :| 0 <= k < |cols| && ILike(Get(x, cols[k]), search);
        assert cols[k] in cols;
        forall i | 0 <= i < |q.where| ensures Holds(q.where[i], x) {
          assert r.where[i] == q.where[i];
        }
      }
      if Admits(q, x) && exists i :: 0 <= i < |fields| && Usable(m, fields[i]) && ILike(Get(x, ColumnOf(fields[i])), search) {
        var i :| 0 <= i < |fields| && Usable(m, fields[i]) && ILike(Get(x, ColumnOf(fields[i])), search);
        assert ColumnOf(fields[i]) in cols;
        var k :| 0 <= k < |cols| && cols[k] == ColumnOf(fields[i]);
        assert Holds(c, x);
        forall j | 0 <= j < |r.where| ensures Holds(r.where[j], x) {
          if j < |q.where| { assert r.where[j] == q.where[j]; }
        }
      }
    }
  }

  /** `_apply_date_filter`: a between-condition on `field` only when both bounds
      are truthy and the model maps `field`. */
  function ApplyDateFilter(m: Schema, q: Query, from: Value, to: Value, field: string): (r: Query)
    ensures Truthy(from) && Truthy(to) && field in m.columns ==> |r.where| == |q.where| + 1
    ensures !(Truthy(from) && Truthy(to) && field in m.columns) ==> r == q
    ensures r.filters == q.filters && r.orderBy == q.orderBy && r.limit == q.limit
    ensures forall x :: Admits(r, x) <==>
      Admits(q, x) && (Truthy(from) && Truthy(to) && field in m.columns ==>
                         Get(x, field) != Null && Le(from, Get(x, field)) && Le(Get(x, field), to))
  {
    if Truthy(from) && Truthy(to) && field in m.columns then
      var r := q.(where := q.where + [Between(field, from, to)]);
      assert forall x :: Admits(r, x) <==> Admits(q, x) && Holds(Between(field, from, to), x) by {
        forall x ensures Admits(r, x) <==> Admits(q, x) && Holds(Between(field, from, to), x) {
          assert r.where[|q.where|] == Between(field, from, to);
          assert forall i :: 0 <= i < |q.where| ==> r.where[i] == q.where[i];
        }
      }
      r
    else q
  }
}

/**
 * `BaseRepository` and `SoftDeleteRepository`: generic CRUD over one mapped
 * model, bound to a session. The soft-delete variant wraps a base repository
 * and forces `is_deleted = False` into every filter set unless the caller
 * gives `is_deleted` itself; its `delete` flags and stamps instead of
 * removing.
 */
module Repositories {
  import opened Wrappers
  import opened Records
  import opened Queries
  import opened Sessions

  const IS_DELETED := "is_deleted"
  const DELETED_AT := "deleted_at"
  /** The name of the positional parameter of the base `get_single`. */
  const SESSION := "session"

  /** `NotImplementedError("Subclasses must define class variable 'model'")`. */
  datatype ConfigError = ModelNotDefined

  /** `after` is `before` with every key of `data` set to the value in `data`. */
  predicate Overwritten(before: Record, data: Fields, after: Record)
  {
    && after.Keys == before.Keys + data.Keys
    && (forall k :: k in data ==> after[k] == data[k])
    && (forall k :: k in before && k !in data ==> after[k] == before[k])
  }

  /** The filters every soft-delete operation uses. */
  function Active(filters: Fields): Fields
  {
    SetDefault(filters, IS_DELETED, Bool(false))
  }

  /** Lemma: the soft-delete filters select the caller's rows that are not
      flagged deleted, unless the caller filtered on `is_deleted` itself. */
  lemma ActiveMatches(x: Record, filters: Fields)
    ensures Matches(x, Active(filters)) <==>
      Matches(x, filters) && (IS_DELETED in filters || Get(x, IS_DELETED) == Bool(false))
  {
    SetDefaultMatches(x, filters, IS_DELETED, Bool(false));
  }

  /** The instance after a soft delete. */
  function MarkDeleted(r: Record, now: Value): (d: Record)
    ensures Get(d, IS_DELETED) == Bool(true) && Get(d, DELETED_AT) == now
    ensures forall k :: k in r && k != IS_DELETED && k != DELETED_AT ==> k in d && d[k] == r[k]
    ensures d.Keys == r.Keys + {IS_DELETED, DELETED_AT}
  {
    r[IS_DELETED := Bool(true)][DELETED_AT := now]
  }

  /** Lemma: soft-deleting the row at `i` removes exactly that row from the
      rows the same soft-delete filters select, when the caller did not ask
      for deleted rows. */
  lemma SoftDeleteLeavesActiveSet(rows: seq<Record>, filters: Fields, i: nat, now: Value)
    requires i < |rows|
    requires IS_DELETED !in filters || filters[IS_DELETED] == Bool(false)
    ensures forall j :: 0 <= j < |rows| ==>
      (Matches(rows[i := MarkDeleted(rows[i], now)][j], Active(filters)) <==> j != i && Matches(rows[j], Active(filters)))
  {
    var after := rows[i := MarkDeleted(rows[i], now)];
    forall j | 0 <= j < |rows|
      ensures Matches(after[j], Active(filters)) <==> j != i && Matches(rows[j], Active(filters))
    {
      if j == i {
        assert Get(after[j], IS_DELETED) == Bool(true);
        assert IS_DELETED in Active(filters) && Active(filters)[IS_DELETED] == Bool(false);
      }
    }
  }

  /** Lemma: when a soft delete found the only active match, the same call
      again finds nothing. */
  lemma SecondSoftDeleteFindsNothing(rows: seq<Record>, filters: Fields, i: nat, now: Value)
    requires IsFirstMatch(rows, Active(filters), i)
    requires IS_DELETED !in filters || filters[IS_DELETED] == Bool(false)
    requires forall j :: 0 <= j < |rows| && j != i ==> !Matches(rows[j], Active(filters))
    ensures FirstMatch(rows[i := MarkDeleted(rows[i], now)], Active(filters)).None?
  {
    SoftDeleteLeavesActiveSet(rows, filters, i, now);
  }

  class BaseRepository {
    const model: Schema
    const session: Session?

    constructor Bind(model: Schema, session: Session?)
      ensures this.model == model && this.session == session
    {
      this.model := model;
      this.session := session;
    }

    /** `__init__`: a repository class that does not define `model` raises;
        otherwise the repository is bound to `session`, and nothing in the
        store changes. */
    static method New(model: Option<Schema>, session: Session?) returns (r: Result<BaseRepository, ConfigError>)
      ensures r.Failure? <==> model.None?
      ensures r.Success? ==> fresh(r.value) && r.value.model == model.value && r.value.session == session
    {
      if model.None? {
        return Failure(ModelNotDefined);
      }
      var repo := new BaseRepository.Bind(model.value, session);
      r := Success(repo);
    }

    /** The rows of the model's own table as the session sees them: what
        `select(self.model)` reads. */
    function Rows(): seq<Record>
      requires session != null
      reads session
    {
      session.Table(model.name)
    }

    /** `create`: one new instance in the model's table whose attributes are
        `data`, plus the values the database supplies at insert (`generated`)
        for the columns `data` leaves unset. Committed and refreshed, or only
        flushed. */
    method Create(data: Fields, commit: bool, generated: Fields) returns (r: Result<Record, Error>)
      requires session != null
      modifies session, session.db
      ensures session.closed == old(session.closed)
      ensures r.Failure? <==> !(data.Keys <= model.columns)
      ensures r.Failure? ==> r.error == InvalidKeyword(data.Keys - model.columns)
      ensures r.Failure? ==> session.view == old(session.view) && session.calls == old(session.calls)
                               && session.db.tables == old(session.db.tables)
      ensures r.Success? ==> Overwritten(generated, data, r.value)
      ensures r.Success? ==> session.view == old(session.view)[model.name := old(Rows()) + [r.value]]
      ensures r.Success? && commit ==> session.db.tables == session.view
                                       && session.calls == old(session.calls) + [Call.Add, Call.Commit, Call.Refresh]
      ensures r.Success? && !commit ==> session.db.tables == old(session.db.tables)
                                        && session.calls == old(session.calls) + [Call.Add, Call.Flush]
    {
      if !(data.Keys <= model.columns) {
        return Failure(InvalidKeyword(data.Keys - model.columns));
      }
      var instance := generated + data;
      session.Add(model.name, instance);
      if commit {
        session.Commit();
        session.Refresh();
      } else {
        session.Flush();
      }
      r := Success(instance);
    }

    /** `get_single`: the first row of the model's table that matches every
        filter, or None. The positional `session` argument is accepted and
        ignored. */
    method GetSingle(ignoredSession: Value, filters: Fields) returns (r: Result<Option<Record>, Error>)
      requires session != null
      ensures r.Failure? <==> !(filters.Keys <= model.columns)
      ensures r.Failure? ==> r.error == NoSuchAttribute(filters.Keys - model.columns)
      ensures r.Success? ==> (r.value.None? <==> forall x :: x in Rows() ==> !Matches(x, filters))
      ensures r.Success? && r.value.Some? ==>
        exists i :: IsFirstMatch(Rows(), filters, i) && Rows()[i] == r.value.value
    {
      var q := Select(model, filters);
      if q.Failure? {
        return Failure(q.error);
      }
      var rows := Rows();
      var found := FirstMatch(rows, filters);
      if found.None? {
        return Success(None);
      }
      r := Success(Some(rows[found.value]));
    }

    /** `get_list`: every matching row, newest `created_at` first, else highest
        `id` first, else in no promised order. */
    method GetList(filters: Fields) returns (r: Result<seq<Record>, Error>)
      requires session != null
      ensures r.Failure? <==> !(filters.Keys <= model.columns)
      ensures r.Failure? ==> r.error == NoSuchAttribute(filters.Keys - model.columns)
      ensures r.Success? ==> forall x :: multiset(r.value)[x] == if Matches(x, filters) then multiset(Rows())[x] else 0
      ensures r.Success? && CREATED_AT in model.columns ==> SortedDesc(r.value, CREATED_AT)
      ensures r.Success? && CREATED_AT !in model.columns && ID in model.columns ==> SortedDesc(r.value, ID)
    {
      var q := ListQuery(model, filters);
      if q.Failure? {
        return Failure(q.error);
      }
      var rows := Rows();
      RunUnlimited(q.value, rows);
      r := Success(Run(q.value, rows));
    }

    /** `get_last_entry`: at most one matching row, the greatest in
        `orderField`, or in `id` when the model does not map `orderField`,
        or the first match when it maps neither. */
    method GetLastEntry(orderField: string, filters: Fields) returns (r: Result<Option<Record>, Error>)
      requires session != null
      ensures r.Failure? <==> !(filters.Keys <= model.columns)
      ensures r.Failure? ==> r.error == NoSuchAttribute(filters.Keys - model.columns)
      ensures r.Success? ==> (r.value.None? <==> forall x :: x in Rows() ==> !Matches(x, filters))
      ensures r.Success? && r.value.Some? ==> r.value.value in Rows() && Matches(r.value.value, filters)
      ensures r.Success? && r.value.Some? && orderField in model.columns ==>
        forall x :: x in Rows() && Matches(x, filters) ==> Le(Get(x, orderField), Get(r.value.value, orderField))
      ensures r.Success? && r.value.Some? && orderField !in model.columns && ID in model.columns ==>
        forall x :: x in Rows() && Matches(x, filters) ==> Le(Get(x, ID), Get(r.value.value, ID))
      ensures r.Success? && r.value.Some? && orderField !in model.columns && ID !in model.columns ==>
        exists i :: IsFirstMatch(Rows(), filters, i) && Rows()[i] == r.value.value
    {
      var q := LastEntryQuery(model, orderField, filters);
      if q.Failure? {
        return Failure(q.error);
      }
      var all := Rows();
      var rows := Run(q.value, all);
      RunFirst(q.value, all);
      if rows == [] {
        return Success(None);
      }
      r := Success(Some(rows[0]));
      if q.value.orderBy.Some? {
        forall x | x in all && Matches(x, filters)
          ensures Le(Get(x, q.value.orderBy.value), Get(rows[0], q.value.orderBy.value))
        {
          RunFirstGreatest(q.value, all, x);
        }
      } else {
        RunFirstUnordered(q.value, all);
      }
    }

    /** `get_paginated_list`, up to the hand-over to the pagination
        collaborator: the query it pages is the filtered query of `get_list`,
        ordered the same way, with no limit of its own. */
    method GetPaginatedList(filters: Fields) returns (r: Result<Query, Error>)
      ensures r.Failure? <==> !(filters.Keys <= model.columns)
      ensures r.Failure? ==> r.error == NoSuchAttribute(filters.Keys - model.columns)
      ensures r.Success? ==> r.value.filters == filters && r.value.where == [] && r.value.limit.None?
      ensures r.Success? && CREATED_AT in model.columns ==> r.value.orderBy == Some(CREATED_AT)
      ensures r.Success? && CREATED_AT !in model.columns && ID in model.columns ==> r.value.orderBy == Some(ID)
      ensures r.Success? && CREATED_AT !in model.columns && ID !in model.columns ==> r.value.orderBy.None?
    {
      r := ListQuery(model, filters);
    }

    /** `update`: the first matching row of the model's table gets every key
        of `data`; the other rows, tables and attributes stay. With no match
        nothing changes. */
    method Update(data: Fields, commit: bool, filters: Fields) returns (r: Result<Option<Record>, Error>)
      requires session != null
      modifies session, session.db
      ensures session.closed == old(session.closed)
      ensures r.Failure? <==> !(filters.Keys <= model.columns)
      ensures r.Failure? ==> r.error == NoSuchAttribute(filters.Keys - model.columns)
      ensures r.Success? ==> (r.value.None? <==> forall x :: x in old(Rows()) ==> !Matches(x, filters))
      ensures !(r.Success? && r.value.Some?) ==>
        session.view == old(session.view) && session.db.tables == old(session.db.tables) && session.calls == old(session.calls)
      ensures r.Success? && r.value.Some? ==>
        exists i :: IsFirstMatch(old(Rows()), filters, i)
          && Overwritten(old(Rows())[i], data, r.value.value)
          && session.view == old(session.view)[model.name := old(Rows())[i := r.value.value]]
      ensures r.Success? && r.value.Some? && commit ==>
        session.db.tables == session.view && session.calls == old(session.calls) + [Call.Commit, Call.Refresh]
      ensures r.Success? && r.value.Some? && !commit ==>
        session.db.tables == old(session.db.tables) && session.calls == old(session.calls)
    {
      var q := Select(model, filters);
      if q.Failure? {
        return Failure(q.error);
      }
      var rows := Rows();
      var found := FirstMatch(rows, filters);
      if found.None? {
        return Success(None);
      }
      var i := found.value;
      var before := rows[i];
      var instance := before;
      var todo := data.Keys;
      while todo != {}
        invariant todo <= data.Keys
        invariant instance.Keys == before.Keys + (data.Keys - todo)
        invariant forall k :: k in data && k !in todo ==> instance[k] == data[k]
        invariant forall k :: k in before && (k !in data || k in todo) ==> instance[k] == before[k]
        decreases todo
      {
        var key :| key in todo;
        instance := instance[key := data[key]];
        todo := todo - {key};
      }
      session.Assign(model.name, i, instance);
      if commit {
        session.Commit();
        session.Refresh();
      }
      r := Success(Some(instance));
    }

    /** `delete`: the first matching row is removed from the model's table and
        committed only when `commit` is true; otherwise it is returned and
        nothing changes. */
    method Delete(commit: bool, filters: Fields) returns (r: Result<Option<Record>, Error>)
      requires session != null
      modifies session, session.db
      ensures session.closed == old(session.closed)
      ensures r.Failure? <==> !(filters.Keys <= model.columns)
      ensures r.Failure? ==> r.error == NoSuchAttribute(filters.Keys - model.columns)
      ensures r.Success? ==> (r.value.None? <==> forall x :: x in old(Rows()) ==> !Matches(x, filters))
      ensures !(r.Success? && r.value.Some? && commit) ==>
        session.view == old(session.view) && session.db.tables == old(session.db.tables) && session.calls == old(session.calls)
      ensures r.Success? && r.value.Some? ==>
        exists i :: IsFirstMatch(old(Rows()), filters, i) && r.value.value == old(Rows())[i]
          && (commit ==> session.view == old(session.view)[model.name := old(Rows())[..i] + old(Rows())[i + 1..]])
      ensures r.Success? && r.value.Some? && commit ==>
        session.db.tables == session.view && session.calls == old(session.calls) + [Call.Delete, Call.Commit]
    {
      var q := Select(model, filters);
      if q.Failure? {
        return Failure(q.error);
      }
      var rows := Rows();
      var found := FirstMatch(rows, filters);
      if found.None? {
        return Success(None);
      }
      var i := found.value;
      var instance := rows[i];
      if commit {
        session.Delete(model.name, i);
        session.Commit();
      }
      r := Success(Some(instance));
    }
  }

  /** `SoftDeleteRepository`, by composition: every operation runs the base
      operation with `is_deleted = False` defaulted into the filters. */
  class SoftDeleteRepository {
    const base: BaseRepository

    constructor Wrap(base: BaseRepository)
      ensures this.base == base
    {
      this.base := base;
    }

    /** Construction runs the base `__init__`, with its check on `model`. */
    static method New(model: Option<Schema>, session: Session?) returns (r: Result<SoftDeleteRepository, ConfigError>)
      ensures r.Failure? <==> model.None?
      ensures r.Success? ==> fresh(r.value) && fresh(r.value.base)
      ensures r.Success? ==> r.value.base.model == model.value && r.value.base.session == session
    {
      var b := BaseRepository.New(model, session);
      if b.Failure? {
        return Failure(b.error);
      }
      var repo := new SoftDeleteRepository.Wrap(b.value);
      r := Success(repo);
    }

    /** `get_single`: calls the base `get_single(**filters)` without the
        positional `session`. That call binds only when the filters carry a
        key named `session`, which then fills the parameter instead of
        filtering; otherwise it raises a TypeError. */
    method GetSingle(filters: Fields) returns (r: Result<Option<Record>, Error>)
      requires base.session != null
      ensures SESSION !in filters ==> r == Failure(MissingArgument(SESSION))
      ensures SESSION in filters ==>
        var f := Active(filters) - {SESSION};
        && (r.Failure? <==> !(f.Keys <= base.model.columns))
        && (r.Failure? ==> r.error == NoSuchAttribute(f.Keys - base.model.columns))
        && (r.Success? ==> (r.value.None? <==> forall x :: x in base.Rows() ==> !Matches(x, f)))
        && (r.Success? && r.value.Some? ==>
              exists i :: IsFirstMatch(base.Rows(), f, i) && base.Rows()[i] == r.value.value)
    {
      var f := Active(filters);
      if SESSION !in f {
        return Failure(MissingArgument(SESSION));
      }
      r := base.GetSingle(f[SESSION], f - {SESSION});
    }

    /** `get_single` as evidently intended: the base `get_single` with the
        positional `session` supplied, so the soft-delete filters select the
        first row that matches and is not flagged deleted. */
    method GetSingleIntended(filters: Fields) returns (r: Result<Option<Record>, Error>)
      requires base.session != null
      ensures r.Failure? <==> !(filters.Keys + {IS_DELETED} <= base.model.columns)
      ensures r.Failure? ==> r.error == NoSuchAttribute((filters.Keys + {IS_DELETED}) - base.model.columns)
      ensures r.Success? ==> (r.value.None? <==>
        forall x :: x in base.Rows() ==>
          !(Matches(x, filters) && (IS_DELETED in filters || Get(x, IS_DELETED) == Bool(false))))
      ensures r.Success? && r.value.Some? ==>
        exists i :: IsFirstMatch(base.Rows(), Active(filters), i) && base.Rows()[i] == r.value.value
    {
      r := base.GetSingle(Null, Active(filters));
      forall x {
        ActiveMatches(x, filters);
      }
    }

    /** `get_list`: the base listing of the rows that match and, unless the
        caller filtered on `is_deleted`, are not flagged deleted. */
    method GetList(filters: Fields) returns (r: Result<seq<Record>, Error>)
      requires base.session != null
      ensures r.Failure? <==> !(filters.Keys + {IS_DELETED} <= base.model.columns)
      ensures r.Failure? ==> r.error == NoSuchAttribute((filters.Keys + {IS_DELETED}) - base.model.columns)
      ensures r.Success? ==>
        forall x :: multiset(r.value)[x] ==
          if Matches(x, filters) && (IS_DELETED in filters || Get(x, IS_DELETED) == Bool(false))
          then multiset(base.Rows())[x] else 0
      ensures r.Success? && CREATED_AT in base.model.columns ==> SortedDesc(r.value, CREATED_AT)
      ensures r.Success? && CREATED_AT !in base.model.columns && ID in base.model.columns ==> SortedDesc(r.value, ID)
    {
      r := base.GetList(Active(filters));
      forall x {
        ActiveMatches(x, filters);
      }
    }

    /** `get_last_entry` over the rows the soft-delete filters select. */
    method GetLastEntry(orderField: string, filters: Fields) returns (r: Result<Option<Record>, Error>)
      requires base.session != null
      ensures r.Failure? <==> !(filters.Keys + {IS_DELETED} <= base.model.columns)
      ensures r.Failure? ==> r.error == NoSuchAttribute((filters.Keys + {IS_DELETED}) - base.model.columns)
      ensures r.Success? ==> (r.value.None? <==> forall x :: x in base.Rows() ==> !Matches(x, Active(filters)))
      ensures r.Success? && r.value.Some? ==>
        r.value.value in base.Rows() && Matches(r.value.value, filters)
        && (IS_DELETED in filters || Get(r.value.value, IS_DELETED) == Bool(false))
      ensures r.Success? && r.value.Some? && orderField in base.model.columns ==>
        forall x :: x in base.Rows() && Matches(x, Active(filters)) ==>
          Le(Get(x, orderField), Get(r.value.value, orderField))
      ensures r.Success? && r.value.Some? && orderField !in base.model.columns && ID in base.model.columns ==>
        forall x :: x in base.Rows() && Matches(x, Active(filters)) ==> Le(Get(x, ID), Get(r.value.value, ID))
      ensures r.Success? && r.value.Some? && orderField !in base.model.columns && ID !in base.model.columns ==>
        exists i :: IsFirstMatch(base.Rows(), Active(filters), i) && base.Rows()[i] == r.value.value
    {
      r := base.GetLastEntry(orderField, Active(filters));
      if r.Success? && r.value.Some? {
        ActiveMatches(r.value.value, filters);
      }
    }

    /** `get_paginated_list`: the base query with the soft-delete filters,
        ordered as the base orders it. */
    method GetPaginatedList(filters: Fields) returns (r: Result<Query, Error>)
      ensures r.Failure? <==> !(filters.Keys + {IS_DELETED} <= base.model.columns)
      ensures r.Failure? ==> r.error == NoSuchAttribute((filters.Keys + {IS_DELETED}) - base.model.columns)
      ensures r.Success? ==> r.value.filters == Active(filters) && r.value.where == [] && r.value.limit.None?
      ensures r.Success? ==> r.value.filters[IS_DELETED] == (if IS_DELETED in filters then filters[IS_DELETED] else Bool(false))
      ensures r.Success? && CREATED_AT in base.model.columns ==> r.value.orderBy == Some(CREATED_AT)
      ensures r.Success? && CREATED_AT !in base.model.columns && ID in base.model.columns ==> r.value.orderBy == Some(ID)
      ensures r.Success? && CREATED_AT !in base.model.columns && ID !in base.model.columns ==> r.value.orderBy.None?
    {
      r := base.GetPaginatedList(Active(filters));
    }

    /** `update` on the first row the soft-delete filters select. */
    method Update(data: Fields, commit: bool, filters: Fields) returns (r: Result<Option<Record>, Error>)
      requires base.session != null
      modifies base.session, base.session.db
      ensures base.session.closed == old(base.session.closed)
      ensures r.Failure? <==> !(filters.Keys + {IS_DELETED} <= base.model.columns)
      ensures r.Failure? ==> r.error == NoSuchAttribute((filters.Keys + {IS_DELETED}) - base.model.columns)
      ensures r.Success? ==> (r.value.None? <==> forall x :: x in old(base.Rows()) ==> !Matches(x, Active(filters)))
      ensures !(r.Success? && r.value.Some?) ==>
        base.session.view == old(base.session.view) && base.session.db.tables == old(base.session.db.tables)
        && base.session.calls == old(base.session.calls)
      ensures r.Success? && r.value.Some? ==>
        exists i :: IsFirstMatch(old(base.Rows()), Active(filters), i)
          && Overwritten(old(base.Rows())[i], data, r.value.value)
          && base.session.view == old(base.session.view)[base.model.name := old(base.Rows())[i := r.value.value]]
      ensures r.Success? && r.value.Some? && commit ==>
        base.session.db.tables == base.session.view
        && base.session.calls == old(base.session.calls) + [Call.Commit, Call.Refresh]
      ensures r.Success? && r.value.Some? && !commit ==>
        base.session.db.tables == old(base.session.db.tables) && base.session.calls == old(base.session.calls)
    {
      r := base.Update(data, commit, Active(filters));
    }

    /** `delete`: the first row the soft-delete filters select is flagged
        `is_deleted = True` and stamped `deleted_at = now`, in place; no row
        is ever removed. Committed and refreshed when `commit` is true. */
    method Delete(commit: bool, filters: Fields, now: Value) returns (r: Result<Option<Record>, Error>)
      requires base.session != null
      modifies base.session, base.session.db
      ensures base.session.closed == old(base.session.closed)
      ensures r.Failure? <==> !(filters.Keys + {IS_DELETED} <= base.model.columns)
      ensures r.Failure? ==> r.error == NoSuchAttribute((filters.Keys + {IS_DELETED}) - base.model.columns)
      ensures |base.Rows()| == |old(base.Rows())|
      ensures r.Success? ==> (r.value.None? <==> forall x :: x in old(base.Rows()) ==> !Matches(x, Active(filters)))
      ensures !(r.Success? && r.value.Some?) ==>
        base.session.view == old(base.session.view) && base.session.db.tables == old(base.session.db.tables)
        && base.session.calls == old(base.session.calls)
      ensures r.Success? && r.value.Some? ==>
        exists i :: IsFirstMatch(old(base.Rows()), Active(filters), i)
          && r.value.value == MarkDeleted(old(base.Rows())[i], now)
          && base.session.view == old(base.session.view)[base.model.name := old(base.Rows())[i := r.value.value]]
      ensures r.Success? && r.value.Some? && commit ==>
        base.session.db.tables == base.session.view
        && base.session.calls == old(base.session.calls) + [Call.Commit, Call.Refresh]
      ensures r.Success? && r.value.Some? && !commit ==>
        base.session.db.tables == old(base.session.db.tables) && base.session.calls == old(base.session.calls)
    {
      var session := base.session;
      var f := Active(filters);
      var q := Select(base.model, f);
      if q.Failure? {
        return Failure(q.error);
      }
      var rows := base.Rows();
      var found := FirstMatch(rows, f);
      if found.None? {
        return Success(None);
      }
      var i := found.value;
      var instance := rows[i][IS_DELETED := Bool(true)];
      instance := instance[DELETED_AT := now];
      session.Assign(base.model.name, i, instance);
      if commit {
        session.Commit();
        session.Refresh();
      }
      r := Success(Some(instance));
    }
  }
}

/**
 * Client code of the repository layer: short programs that use the
 * repositories and the unit of work the way the services do, with what each
 * program can rely on stated as its postcondition.
 */
module Scenarios {
  import opened Wrappers
  import opened Records
  import opened Queries
  import opened Sessions
  import opened Repositories
  import opened UnitsOfWork

  /** An instance created without commit is flushed into the transaction, so
      `get_single` on the same session finds it by its own data, while the
      committed rows are untouched. */
  method CreateThenGetSingle(repo: BaseRepository, data: Fields, generated: Fields)
    returns (created: Record, found: Option<Record>)
    requires repo.session != null
    requires data.Keys <= repo.model.columns
    requires forall x :: x in repo.Rows() ==> !Matches(x, data)
    modifies repo.session, repo.session.db
    ensures Overwritten(generated, data, created)
    ensures found == Some(created)
    ensures repo.session.db.tables == old(repo.session.db.tables)
  {
    var c := repo.Create(data, false, generated);
    created := c.value;
    assert Matches(created, data);
    var g := repo.GetSingle(Null, data);
    assert g.Success? && g.value.Some?;
    var i :| IsFirstMatch(repo.Rows(), data, i) && repo.Rows()[i] == g.value.value;
    found := g.value;
  }

  /** A create through the repository of one model is invisible to the
      repository of another model on the same session: each reads only its
      own table. */
  method CreateLeavesOtherTables(a: BaseRepository, b: BaseRepository, data: Fields, generated: Fields)
    returns (created: Result<Record, Error>, found: Result<Option<Record>, Error>)
    requires a.session != null && b.session == a.session && a.model.name != b.model.name
    requires data.Keys <= a.model.columns && data.Keys <= b.model.columns
    requires forall x :: x in b.Rows() ==> !Matches(x, data)
    modifies a.session, a.session.db
    ensures created.Success? && Matches(created.value, data)
    ensures b.Rows() == old(b.Rows())
    ensures found == Success(None)
  {
    created := a.Create(data, false, generated);
    found := b.GetSingle(Null, data);
  }

  /** `SoftDeleteRepository.get_single` as written fails on any filters
      without a `session` key, even when an active row matches them; the
      intended call finds that row. */
  method SoftGetSingleAsWrittenFails(repo: SoftDeleteRepository, filters: Fields)
    returns (asWritten: Result<Option<Record>, Error>, intended: Result<Option<Record>, Error>)
    requires repo.base.session != null
    requires SESSION !in filters && filters.Keys + {IS_DELETED} <= repo.base.model.columns
    requires exists x :: x in repo.base.Rows() && Matches(x, Active(filters))
    ensures asWritten == Failure(MissingArgument(SESSION))
    ensures intended.Success? && intended.value.Some? && Matches(intended.value.value, Active(filters))
  {
    asWritten := repo.GetSingle(filters);
    intended := repo.GetSingleIntended(filters);
    var x :| x in repo.base.Rows() && Matches(x, Active(filters));
    ActiveMatches(x, filters);
  }

  /** A soft delete of the only active match flags it; the same call again
      finds nothing to delete, and the row count never changes. */
  method SoftDeleteTwice(repo: SoftDeleteRepository, filters: Fields, now: Value)
    returns (first: Result<Option<Record>, Error>, second: Result<Option<Record>, Error>)
    requires repo.base.session != null
    requires filters.Keys + {IS_DELETED} <= repo.base.model.columns
    requires IS_DELETED !in filters || filters[IS_DELETED] == Bool(false)
    requires exists i :: 0 <= i < |repo.base.Rows()| && Matches(repo.base.Rows()[i], Active(filters))
    requires forall j, k :: 0 <= j < k < |repo.base.Rows()| && Matches(repo.base.Rows()[j], Active(filters))
               ==> !Matches(repo.base.Rows()[k], Active(filters))
    modifies repo.base.session, repo.base.session.db
    ensures first.Success? && first.value.Some? && Get(first.value.value, IS_DELETED) == Bool(true)
    ensures second == Success(None)
    ensures |repo.base.Rows()| == |old(repo.base.Rows())|
  {
    var rows := repo.base.Rows();
    var f := Active(filters);
    first := repo.Delete(true, filters, now);
    var w :| 0 <= w < |rows| && Matches(rows[w], f);
    assert rows[w] in rows;
    var i :| IsFirstMatch(rows, f, i) && first.value.value == MarkDeleted(rows[i], now)
             && repo.base.Rows() == rows[i := first.value.value];
    SoftDeleteLeavesActiveSet(rows, filters, i, now);
    forall x | x in repo.base.Rows() ensures !Matches(x, f) {
      var j :| 0 <= j < |repo.base.Rows()| && repo.base.Rows()[j] == x;
      if j != i {
        if j < i {
          assert !Matches(rows[j], f);
        } else {
          assert Matches(rows[i], f);
        }
      }
    }
    second := repo.Delete(true, filters, now);
  }

  /** One unit-of-work scope that creates an instance without commit: when
      the block ends normally the exit commits it; when the block raises (or
      the create itself raises) the exit rolls it back and the committed rows
      are as before. Both repositories the scope hands out share its session. */
  method CreateInScope(factory: Database, cls: RepositoryClass, other: RepositoryClass,
                       data: Fields, generated: Fields, raised: bool)
    returns (created: Result<Record, Error>, first: Handle, second: Handle)
    requires cls.model.Some? && !cls.softDelete && other.model.Some?
    modifies factory
    ensures first.Session() != null && first.Session() == second.Session() && first.Session().db == factory
    ensures first.Session().closed
    ensures created.Failure? || raised ==> factory.tables == old(factory.tables)
    ensures created.Success? && !raised ==>
      var name := cls.model.value.name;
      factory.tables == old(factory.tables)[name := RowsOf(old(factory.tables), name) + [created.value]]
  {
    var uow := new UnitOfWork(factory);
    var scope := uow.Enter();
    var h := scope.GetRepository(cls);
    var h2 := scope.GetRepository(other);
    first, second := h.value, h2.value;
    created := first.repo.Create(data, false, generated);
    var outcome := scope.Exit(raised || created.Failure?, false);
  }
}

/**
 * `UnitOfWork`: owns one session for the extent of an `async with` block.
 * Entering opens a session from the factory; exiting commits when the block
 * ended normally or rolls back when it raised, and then closes. The exit has
 * no `try`/`finally`: a commit that raises skips both rollback and close.
 */
module UnitsOfWork {
  import opened Wrappers
  import opened Queries
  import opened Sessions
  import opened Repositories

  /** A repository class as `get_repository` receives it: its `model`
      class variable, if it defines one, and whether it is a
      `SoftDeleteRepository`. */
  datatype RepositoryClass = RepositoryClass(name: string, model: Option<Schema>, softDelete: bool)

  /** A repository instance of either kind. */
  datatype Handle = Plain(repo: BaseRepository) | SoftDeleting(soft: SoftDeleteRepository)
  {
    function Session(): Session?
    {
      match this
      case Plain(r) => r.session
      case SoftDeleting(s) => s.base.session
    }
  }

  /** How leaving the `async with` block ends. */
  datatype ExitOutcome =
    | Completed      // the block ended normally and the commit went through
    | Reraised       // the block raised; `__aexit__` returns None, so the exception propagates
    | CommitRaised   // the block ended normally but the commit raised

  datatype Status = NoSession | Open | Closed

  class UnitOfWork {
    /** What `session_factory` connects to: each call opens a new session on it. */
    const factory: Database
    var session: Session?

    /** `__init__`: no session yet. */
    constructor (factory: Database)
      ensures this.factory == factory && session == null && Status() == NoSession
    {
      this.factory := factory;
      session := null;
    }

    function Status(): Status
      reads this, session
    {
      if session == null then NoSession else if session.closed then Closed else Open
    }

    /** `__aenter__`: a new session from the factory replaces the current one;
        returns the unit of work itself. */
    method Enter() returns (self: UnitOfWork)
      modifies this
      ensures self == this && session != null && fresh(session) && Status() == Open
      ensures session.db == factory && session.view == factory.tables && session.calls == []
    {
      session := new Session(factory);
      self := this;
    }

    /** `__aexit__`: commit after a normal end, roll back after an exception,
        then close; `commitFails` says whether the store rejects the commit. */
    method Exit(raised: bool, commitFails: bool) returns (outcome: ExitOutcome)
      requires session != null
      modifies session, session.db
      ensures session == old(session)
      ensures !raised && !commitFails ==>
        && outcome == Completed && Status() == Closed
        && session.calls == old(session.calls) + [Call.Commit, Call.Close]
        && session.db.tables == old(session.view) && session.view == session.db.tables
      ensures raised ==>
        && outcome == Reraised && Status() == Closed
        && session.calls == old(session.calls) + [Call.Rollback, Call.Close]
        && session.db.tables == old(session.db.tables) && session.view == session.db.tables
      ensures !raised && commitFails ==>
        && outcome == CommitRaised && Status() == old(Status())
        && session.calls == old(session.calls) + [CommitFailed]
        && session.db.tables == old(session.db.tables) && session.view == old(session.view)
    {
      if !raised {
        if commitFails {
          session.FailCommit();
          return CommitRaised;
        }
        session.Commit();
        outcome := Completed;
      } else {
        session.Rollback();
        outcome := Reraised;
      }
      session.Close();
    }

    /** `get_repository`: a new repository of the requested class bound to the
        current session, on every call; construction fails when the class does
        not define `model`. */
    method GetRepository(cls: RepositoryClass) returns (r: Result<Handle, ConfigError>)
      ensures r.Failure? <==> cls.model.None?
      ensures r.Success? ==> r.value.Session() == session && (r.value.SoftDeleting? <==> cls.softDelete)
      ensures r.Success? && r.value.Plain? ==> fresh(r.value.repo) && r.value.repo.model == cls.model.value
      ensures r.Success? && r.value.SoftDeleting? ==>
        fresh(r.value.soft) && fresh(r.value.soft.base) && r.value.soft.base.model == cls.model.value
    {
      if cls.softDelete {
        var s := SoftDeleteRepository.New(cls.model, session);
        if s.Failure? {
          return Failure(s.error);
        }
        r := Success(SoftDeleting(s.value));
      } else {
        var b := BaseRepository.New(cls.model, session);
        if b.Failure? {
          return Failure(b.error);
        }
        r := Success(Plain(b.value));
      }
    }
  }
}

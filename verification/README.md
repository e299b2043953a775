# Generic data-access layer: repositories, unit of work, date ranges

This project is a Dafny model of the data-access layer of a FastAPI service. It has three parts.

- **Repositories.** `BaseRepository` does generic create / read / update / delete over one mapped model through one session. `SoftDeleteRepository` is a variant that hides flagged rows and flags rows instead of removing them.
- **Unit of work.** The `async with` scope that owns one session. It commits on a clean exit, rolls back after an exception, and then closes.
- **Date ranges.** `parse_date_range` and its inner `to_utc` widen a date range to whole local days and shift it to UTC.

The database and its session are an abstract in-memory store:

- A row is a map from attribute name to value; an attribute that was never set reads as NULL.
- The store is a set of tables, one per mapped model, keyed by the model's table name (`Schema.name`). `select(self.model)` reads only that model's table, and every repository operation reads and writes only its own model's table.
- A `Database` holds the committed rows of every table.
- A `Session` holds:
  - the rows of every table as its open transaction sees them (its own adds, attribute changes and deletes included);
  - a log of the calls made on it (add, flush, commit, refresh, delete, rollback, close).
- Queries are data: `filter_by` entries, a list of `where` conditions (an OR of `ILIKE` over columns, or a `BETWEEN`), an optional descending order column and an optional limit.
- `Queries.Run` evaluates a query over one table's rows. It keeps the admitted rows in the model's store order, sorts them descending by the order column, then applies the limit. "First" (the row `scalars().first()` returns from an unordered query) means first in that store order, a fixed order the database itself does not promise; see "## Left out".

Modules, one per file:

| file | module | models |
|---|---|---|
| `wrappers.dfy` | `Wrappers` | `Option` and `Result` |
| `records.dfy` | `Records` | column values, rows, `filter_by` matching, `setdefault`, the first match, the column order, `ORDER BY … DESC` |
| `queries.dfy` | `Queries` | query building and evaluation: ordering-field fallback, `_apply_search_filter`, `_apply_date_filter` |
| `sessions.dfy` | `Sessions` | the store and the session, as classes |
| `repositories.dfy` | `Repositories` | `BaseRepository`, and `SoftDeleteRepository` wrapping a base repository |
| `uow.dfy` | `UnitsOfWork` | `UnitOfWork` |
| `dates.dfy` | `DateRange` | `parse_date_range` and `to_utc` |
| `scenarios.dfy` | `Scenarios` | client programs: create then read, two models on one session, soft delete twice, one unit-of-work scope |

Behaviour worth knowing, as the code has it:

- **Null filters.** Filters are never cleaned of `None` values: `filter_by(x=None)` selects the rows where `x` IS NULL. There is no `allow_null_filters` parameter in the repository code.
- **A failed commit at exit.** `__aexit__` has no `try`/`finally`. When the exit commit raises, neither rollback nor close happens. The model's `Exit` says exactly that: the session stays open and nothing is committed. It does not promise the unconditional rollback-and-close cleanup that a stronger design would give.
- **Soft `get_single`.** `SoftDeleteRepository.get_single` calls the base `get_single` without its positional `session` argument. It therefore raises unless the filters carry a key named `session`; see "## Findings".
- **Default arguments.** Soft `update` and `delete` default `commit` to true, while the base defaults it to false. `get_last_entry` defaults `order_field` to `"created_at"`, and `_apply_date_filter` defaults `field` to `"created_at"`. Python defaults have no counterpart in Dafny: every method and function here takes `commit`, `orderField` and `field` explicitly, and a caller relying on the default passes `CREATED_AT`.
- **Time zone and clock.** The shift from the local zone to UTC is a function parameter (`localToUtc`) of which nothing is assumed, except where a lemma states its hypothesis. The clock (`get_utc_now`) is the parameter `now`.

## Model

| member | source | states |
|---|---|---|
| `Records.SetDefault` | app/core/database/repositories.py:170 | the caller's own entry for the key is kept, otherwise the default is added; no other entry changes |
| `Records.SetDefaultMatches` | app/core/database/repositories.py:170-171 | a defaulted filter set selects exactly the caller's matches, narrowed by `key == default` only when the caller gave no value for the key |
| `Records.FirstMatch` | app/core/database/repositories.py:46-48 | the result is the position of the first row matching every filter, or None exactly when no row matches |
| `Records.LeTotal` | app/core/database/repositories.py:59 | any two column values are comparable in the database order used by `desc()` |
| `Records.LeTransitive` | app/core/database/repositories.py:59 | that order is transitive |
| `Records.SortDesc` | app/core/database/repositories.py:59 | ordering returns the same rows (as a multiset) |
| `Records.SortDescSorted` | app/core/database/repositories.py:59 | ordering returns the rows in descending order of the column |
| `Records.HeadIsGreatest` | app/core/database/repositories.py:74-77 | the head of a descending list is greatest in the column |
| `Queries.Select` | app/core/database/repositories.py:46 | `select(model).filter_by(**f)` holds exactly `f`; it fails, naming the unmapped keys, exactly when a key is not a column |
| `Queries.OrderField` | app/core/database/repositories.py:55-58 | the order column is the preferred one if mapped, else `id` if mapped, else none |
| `Queries.Where` | app/core/database/repositories.py:46-47 | a query returns each stored row it admits, as often as it is stored, and no other |
| `Queries.RunUnlimited` | app/core/database/repositories.py:53-62 | without `limit`, execution returns exactly the admitted rows, sorted descending when ordered |
| `Queries.RunFirst` | app/core/database/repositories.py:68-77 | with `limit(1)`, execution returns nothing exactly when no stored row is admitted, else one admitted stored row |
| `Queries.RunFirstGreatest` | app/core/database/repositories.py:68-77 | with `limit(1)` and an order column, the row returned is greatest in that column among the admitted rows |
| `Queries.RunFirstUnordered` | app/core/database/repositories.py:68-77 | with `limit(1)` and no order column, the row returned is the first admitted row in store order |
| `Queries.Fold` | app/core/database/repositories.py:140 | the case folding `ILIKE` compares under: same length, every character lower-cased when it is an ASCII capital and kept otherwise |
| `Queries.SearchColumns` | app/core/database/repositories.py:137-143 | a column joins the OR-condition exactly when some entry of `fields` names a mapped attribute, or is an expression with `ilike` |
| `Queries.ApplySearchFilter` | app/core/database/repositories.py:126-148 | an empty search or empty `fields` leaves the query as it is; otherwise exactly one OR-condition over the usable columns in field order is appended, or nothing when none is usable |
| `Queries.SearchFilterAdmits` | app/core/database/repositories.py:145-148 | after the search filter, a row is admitted exactly when it was before and, if a condition was added, some usable column contains the search text ignoring case |
| `Queries.ApplyDateFilter` | app/core/database/repositories.py:150-159 | a between-condition is added only when both bounds are truthy and the model maps the field; a row is then admitted exactly when it was before and its field lies between the bounds |
| `Sessions.Database.constructor` | app/core/database/uow.py:40-41 | the store the session factory connects to holds the given committed tables |
| `Sessions.Session.constructor` | app/core/database/uow.py:46 | a session fresh from the factory sees the committed rows, has no calls and is open |
| `Sessions.Session.Add` | app/core/database/repositories.py:33 | the instance is appended to its own table in the transaction; no other table changes; nothing is committed |
| `Sessions.Session.Flush` | app/core/database/repositories.py:38 | the transaction's rows stay as they are; nothing is committed |
| `Sessions.Session.Commit` | app/core/database/repositories.py:35 | the transaction's rows become the committed rows |
| `Sessions.Session.FailCommit` | app/core/database/uow.py:52 | a commit that raises commits nothing and leaves the transaction as it was |
| `Sessions.Session.Refresh` | app/core/database/repositories.py:36 | after a commit the instance reloads what the transaction already sees |
| `Sessions.Session.Delete` | app/core/database/repositories.py:120 | exactly the row at the given position of the given table leaves the transaction; no other table changes |
| `Sessions.Session.Assign` | app/core/database/repositories.py:102-103 | only the row at the given position of the given table is replaced; no call is logged |
| `Sessions.Session.Rollback` | app/core/database/uow.py:54 | the transaction's rows revert to the committed rows |
| `Sessions.Session.Close` | app/core/database/uow.py:55 | the session is closed and its uncommitted work discarded |
| `Repositories.ActiveMatches` | app/core/database/repositories.py:170-203 | the soft-delete filters select the caller's matches that are not flagged deleted, unless the caller filtered on `is_deleted` |
| `Repositories.MarkDeleted` | app/core/database/repositories.py:208-209 | a soft-deleted instance has `is_deleted` true and `deleted_at` set to now; every other attribute is unchanged |
| `Repositories.SoftDeleteLeavesActiveSet` | app/core/database/repositories.py:199-215 | soft-deleting the row at `i` removes exactly that row from what the same soft-delete filters select |
| `Repositories.SecondSoftDeleteFindsNothing` | app/core/database/repositories.py:199-215 | when a soft delete took the only active match, the same filters then match nothing |
| `Repositories.BaseRepository.Bind` | app/core/database/repositories.py:23-24 | the repository is bound to the model and the session |
| `Repositories.BaseRepository.New` | app/core/database/repositories.py:23-26 | construction fails exactly when the class defines no `model`; otherwise a new repository holds the session |
| `Repositories.BaseRepository.Create` | app/core/database/repositories.py:28-40 | an unmapped key in `data` fails and changes nothing. Otherwise exactly one instance carrying `data` (over database defaults) is added; with `commit` it is committed and refreshed, else only flushed |
| `Repositories.BaseRepository.GetSingle` | app/core/database/repositories.py:42-48 | the first row of the transaction matching every filter, or None exactly when no row matches; the positional `session` is ignored; an unmapped filter key fails |
| `Repositories.BaseRepository.GetList` | app/core/database/repositories.py:50-62 | exactly the matching rows, with multiplicity: descending by `created_at` if mapped, else by `id` if mapped |
| `Repositories.BaseRepository.GetLastEntry` | app/core/database/repositories.py:64-77 | None exactly when no row matches; else one matching row, greatest in `order_field`, or in `id` when `order_field` is unmapped, or the first match when neither is mapped |
| `Repositories.BaseRepository.GetPaginatedList` | app/core/database/repositories.py:80-89 | the query handed to pagination has the caller's filters, no other condition and no limit, and is ordered as in `get_list` |
| `Repositories.BaseRepository.Update` | app/core/database/repositories.py:93-109 | on a match, the first matching row gets every key of `data` and keeps its other attributes, while no other row changes; committed and refreshed only with `commit`; with no match nothing changes and the result is None |
| `Repositories.BaseRepository.Delete` | app/core/database/repositories.py:111-124 | the first match is returned; it is removed and committed only when `commit` is true, otherwise nothing changes; with no match nothing changes and the result is None |
| `Repositories.SoftDeleteRepository.Wrap` | app/core/database/repositories.py:164 | the soft-delete repository wraps the given base repository |
| `Repositories.SoftDeleteRepository.New` | app/core/database/repositories.py:23-26 | construction fails exactly when the class defines no `model` |
| `Repositories.SoftDeleteRepository.GetSingle` | app/core/database/repositories.py:167-171 | as written: fails with a missing `session` argument unless the filters carry a `session` key, which then fills the parameter instead of filtering |
| `Repositories.SoftDeleteRepository.GetSingleIntended` | app/core/database/repositories.py:167-171 | with the positional argument supplied: the first row that matches and is not flagged deleted (unless the caller filtered on `is_deleted`), or None exactly when there is none |
| `Repositories.SoftDeleteRepository.GetList` | app/core/database/repositories.py:173-177 | exactly the matching rows not flagged deleted, unless the caller filtered on `is_deleted`, ordered as in `get_list` |
| `Repositories.SoftDeleteRepository.GetLastEntry` | app/core/database/repositories.py:179-182 | None exactly when no match is left after the soft-delete filters; else one match not flagged deleted, greatest in `order_field`, or in `id`, or the first such match when neither is mapped; an unmapped filter key fails |
| `Repositories.SoftDeleteRepository.GetPaginatedList` | app/core/database/repositories.py:184-189 | the paged query carries `is_deleted = False` unless the caller gave `is_deleted`, in which case the caller's value wins; it is ordered as the base orders it (`created_at`, else `id`, else none); an unmapped filter key fails, naming the keys |
| `Repositories.SoftDeleteRepository.Update` | app/core/database/repositories.py:191-197 | the base update applied to the first match that is not flagged deleted |
| `Repositories.SoftDeleteRepository.Delete` | app/core/database/repositories.py:199-215 | the first active match is flagged `is_deleted` and stamped `deleted_at` in place; no row is removed; committed and refreshed only with `commit`; with no match nothing changes |
| `UnitsOfWork.UnitOfWork.constructor` | app/core/database/uow.py:40-42 | a fresh unit of work has no session |
| `UnitsOfWork.UnitOfWork.Enter` | app/core/database/uow.py:44-47 | entering replaces the session with a new one from the factory and returns the same unit of work |
| `UnitsOfWork.UnitOfWork.Exit` | app/core/database/uow.py:49-55 | a clean exit commits and then closes; an exit after an exception rolls back, closes and commits nothing; after either, the session's view is the committed rows, so uncommitted work is gone for any later read through it; a commit that raises is followed by neither rollback nor close, and the view keeps the uncommitted work |
| `UnitsOfWork.UnitOfWork.GetRepository` | app/core/database/uow.py:57-67 | every call returns a new repository of the requested kind bound to the current session; it fails exactly when the class defines no `model` |
| `DateRange.Split` | app/core/utils.py:21 | `split("-")` yields at least one part |
| `DateRange.ParseInts` | app/core/utils.py:21 | every part is converted; it succeeds only when every part is a numeral, and a failure names a part that is not |
| `DateRange.ToUtc` | app/core/utils.py:18-30 | conversion fails exactly when the day cannot be read, with that error; otherwise it gives the shifted start or end of that day |
| `DateRange.ParseDateRange` | app/core/utils.py:5-40 | without a truthy `to` both arguments come back unchanged. With `to` only, both bounds come from `to`'s day (start and end). With both, `from` gives the start of its day and `to` the end of its day. A text that cannot be read fails with the error of the first day that cannot be read, `from` before `to` |
| `DateRange.MomentTakesDateBranch` | app/core/utils.py:24-27 | a datetime is converted as its date: its time of day is discarded |
| `DateRange.Digits` | app/core/utils.py:21 | zero-padded decimal text has the requested width and only digits |
| `DateRange.DigitsValue` | app/core/utils.py:21 | `int()` of zero-padded decimal text gives back the number |
| `DateRange.IsoTextRoundTrip` | app/core/utils.py:20-23 | the "YYYY-MM-DD" text of a date is read back as that date, so passing the text or the date converts alike |
| `DateRange.OnlyToSpansOneDay` | app/core/utils.py:32-34 | with only `to`, and a shift that keeps local order, the range is one whole day with `from` no later than `to` |
| `Scenarios.CreateThenGetSingle` | app/core/database/repositories.py:28-48 | an instance created without commit is found by `get_single` on the same session by its own data, and nothing is committed |
| `Scenarios.SoftGetSingleAsWrittenFails` | app/core/database/repositories.py:167-171 | without a `session` key, the soft `get_single` as written fails even when an active row matches, while the intended call finds it |
| `Scenarios.SoftDeleteTwice` | app/core/database/repositories.py:199-215 | soft-deleting the only active match flags it; the same call again returns None; the row count never changes |
| `Scenarios.CreateLeavesOtherTables` | app/core/database/repositories.py:28-48 | on one session, a create through one model's repository is not found by `get_single` of another model's repository, whose table is unchanged |
| `Scenarios.CreateInScope` | app/core/database/uow.py:44-67 | a scope that creates without commit commits the instance to its model's table on a clean exit, and leaves every committed table as before when it raises; two repositories from one scope share its session, which is closed afterwards |

## Findings

| source | as written | input that shows it | evidently intended | confidence | as-written member | corrected member |
|---|---|---|---|---|---|---|
| app/core/database/repositories.py:171 | `super().get_single(**filters)` leaves the base method's positional `session` parameter unbound | any filters without a `session` key, e.g. `get_single(name="a")` on a table holding an active row named "a": TypeError instead of the row | pass the positional argument, so that the first active match is returned | high (not executed) | `Repositories.SoftDeleteRepository.GetSingle`, shown by `Scenarios.SoftGetSingleAsWrittenFails` | `Repositories.SoftDeleteRepository.GetSingleIntended` |

## Left out

- Pagination (`paginate`, `fastapi_pagination`): the page format belongs to an external library. `GetPaginatedList` stops at the query it hands over.
- Asynchrony, the logging calls and the interface-only `AbstractUnitOfWork`: none of them changes the stored state.
- Concurrency between sessions: each session is used alone, and its transaction is committed over the stored rows as a whole.
- Store failures other than a failing commit at exit (connection loss, constraint violations): the store is assumed to accept every statement. That includes a search over a column that is not text (`fields=["id"]`). PostgreSQL has no `ILIKE` for an integer and raises; `Queries.ILike` instead treats a non-text value as no match.
- SQL text and the exact `ILIKE` pattern semantics. `ILIKE '%s%'` is modelled as containment after folding ASCII letters to lower case. `%` and `_` inside the search text are not treated as wildcards. There is no collation; text order is by code point.
- Instance identity: an instance is the row at a position in its table in the session's view, and a returned instance is a snapshot of that row. Changes made later through the same Python object are not tracked.
- Server-side defaults and generated keys on insert are the parameter `generated` of `Create`; which columns have defaults is not modelled.
- Column `onupdate` values are not modelled either. `updated_at` is rewritten by the database whenever an `update` or a soft `delete` is flushed, and the refresh after a commit loads it. `Overwritten` and `MarkDeleted` say that every attribute outside `data` (or outside the two soft-delete flags) keeps its value, so they do not capture this rewrite.
- `update` assigns every key of `data`, mapped or not. The model does not distinguish attributes that are persisted from plain Python attributes set on the instance.
- `getattr(self.model, order_field, None)` finds any class attribute, not only columns. The model considers columns only.
- `Schema.columns` holds column attributes only. Relationships, hybrid properties and other class attributes are not modelled, and `Value` cannot hold an instance. `model(**data)` accepts every such key, `filter_by` looks each key up on the mapped class, and `_apply_date_filter` tests `hasattr`. `Create`, `Select` and `ApplyDateFilter` instead treat such keys as unmapped: `Create` fails with `InvalidKeyword`, `Select` fails with `NoSuchAttribute`, and `ApplyDateFilter` adds no condition.
- Filter keys that coincide with a parameter name are not modelled. Examples are `session` for the base `get_single`, `commit` for `delete` and `update`, and `order_field` for `get_last_entry`. Python raises TypeError ("got multiple values for argument") on such a call, while the model keeps `filters` apart from the parameters and treats such a key as one more filter. The one binding that matters, the soft `get_single` filling `session` from its filters, is modelled.
- Search fields that are class attributes but not columns (such as `metadata`): `hasattr(self.model, field)` accepts them, and the `.ilike` call on them then raises. `Queries.Usable` treats only mapped columns as named fields, so the model skips such a name instead of raising.
- Row order without `ORDER BY`: the database promises none. The model gives every table a fixed store order. New rows go to the end, and an updated or soft-deleted row keeps its position, although PostgreSQL writes a new row version that a later scan may return elsewhere. Every "first match" in `FirstMatch`, `GetSingle`, `Update`, `Delete` (base and soft) and, with no order column mapped, `GetLastEntry` is the first match in this store order. The database may pick any match.
- Calling a repository method while its session is `None` (from `get_repository` before entering the scope) raises AttributeError. The repository methods require a session instead of modelling that error.
- `Repositories.BaseRepository.GetList` and `Repositories.SoftDeleteRepository.GetList` promise no order when the model maps neither `created_at` nor `id`, matching the database, which promises none.
- `DateRange.ParseInts`: `int()` also accepts surrounding whitespace, a sign, underscores between digits and non-ASCII decimal digits. The model accepts ASCII digit strings only, so such texts fail here where Python would read them.
- The real time zone (`pytz`, `LOCAL_TZ`, `astimezone`) is the function parameter `localToUtc`. The clock `get_utc_now` is the parameter `now` of the soft delete.
- `to_utc`'s final `return None` branch: every argument is a text, a date or a datetime, so it cannot be reached. The `datetime` branch is unreachable too, because a datetime is a date.
- `app/core/services.py` is not part of this model: its calls do not match the repository's signatures.

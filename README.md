# Resource lock store of the Jenkins scheduler

This project models the lock store in `jenkins/scheduler/database.py` and proves
properties of it. The store is an SQLite table `stuff`. Each row holds a
sequence `id`, a resource descriptor (a record identified by its `HOST` entry),
a lock name (`""` means free), a nullable lock reason and a nullable lock date.
It has six operations:

- `set_database` replaces the pool. Every host that was already in the table
  keeps its lock name, reason and date. The last old row of that host wins.
  The old rows are read without `ORDER BY`; SQLite scans a rowid table in `id`
  order, so the last row is the one with the highest id.
- `get_database` reads the records back in `id` order.
- `lock_items` claims free rows for a lock name through a two-stage selector.
- `get_locks` lists the lock names in use.
- `get_lock_details` reports each host's lock state.
- `release_lock` frees every row that holds a lock name.

Layout:

- `records.dfy` (`Records`): rows, records, lock states, errors.
- `table.dfy` (`Table`): what each operation does to the table, as functions
  on the row sequence, and the lemmas about them.
- `selection.dfy` (`Selection`): the two-stage selector, with its caller-owned
  state made explicit. It includes a proof that every generator runs before
  any term is called.
- `lock_order.dfy` (`LockOrder`): SQLite's BINARY collation on lock names, and
  strictly ascending lists in that order.
- `database.dfy` (`Store`): the `Database` class. Its fields are the table's
  state (`hasTable` and `rows`). Each operation is one method that changes
  those fields, proved against the `Table` functions.

Modelling choices:

- `ORDER BY random()` is the parameter `order`. It may be any permutation of
  the free rows' ids (`Table.IsCandidateOrder`), so every result holds for
  every order.
- `datetime('now')` is the parameter `now`.
- The selector's side effects (the Python closures write to variables they
  capture) are a state value. That value is threaded through every call in
  the order the calls happen.
- An operation on a file where `set_database` has never run fails in SQLite
  because the table is missing. This is modelled as `Err(NoSuchTable)`. The
  empty lock name in `lock_items` is `Err(InvalidLock(""))`, the
  `ValueError`. It is raised before the database is touched.

Three behaviours of the code are easy to miss:

- The code calls the term generator on every candidate first, and only then
  calls the terms in the same order. The two stages are not interleaved.
- A host that is new at `set_database` gets a NULL reason and a NULL date,
  not an empty reason.
- A saved `(lock, date, reason)` tuple is always truthy. So a known host takes
  over its old state even when its old lock was `""`.

## Model

| member | source | states |
|---|---|---|
| Store.Database.SetDatabase | jenkins/scheduler/database.py:34-52 | the new table is `Sync` of the records, with each old host's lock state (the last old row of that host) carried over; no carry-over when no table existed; the table exists afterwards and ids equal positions |
| Store.Database.GetDatabase | jenkins/scheduler/database.py:75-80 | with a table, returns one record per row, each at the position given by its id; without one, fails with the missing-table error |
| Store.Database.LockItems | jenkins/scheduler/database.py:109-138 | the empty lock name fails and changes nothing; a missing table fails; otherwise the selector sees the free rows in `order`, exactly the rows whose term says yes are locked with the lock name, `reason or ''` and `now`, and the claimed records come back in claim order together with the selector's final state |
| Store.GenerateTerms | jenkins/scheduler/database.py:119-122 | the first stage applies the term generator to every candidate in order, threading the selector state |
| Store.Database.ClaimDecided | jenkins/scheduler/database.py:124-133 | the second stage calls the terms in order; the ids claimed are those whose term said yes, the table becomes `ClaimRows` of them and the result lists their records |
| Store.Database.ClaimNext | jenkins/scheduler/database.py:126-133 | claiming one more row whose term said yes, not yet claimed in this call, turns the table into `ClaimRows` of the claims so far plus that row |
| Store.Database.UpdateRow | jenkins/scheduler/database.py:127-133 | the two `UPDATE ... WHERE id` statements change exactly the row with that id to lock, `reason or ''` and `now`; each touches exactly one row |
| Store.Database.GetLocks | jenkins/scheduler/database.py:159-165 | returns a strictly ascending list whose elements are exactly the non-empty lock names held by some row |
| Store.Database.GetLockDetails | jenkins/scheduler/database.py:192-202 | returns `Details` of the rows for the requested host or for all hosts; fails without a table |
| Store.Database.ReleaseLock | jenkins/scheduler/database.py:225 | every row holding the lock becomes free and nothing else changes; fails without a table |
| Table.CountId | jenkins/scheduler/database.py:127-133 | the `rowcount` of an `UPDATE ... WHERE id = :id`: never more than the number of rows, and positive exactly when some row has that id |
| Table.Contents | jenkins/scheduler/database.py:76-77 | one record per row, and when ids equal positions, the record of the row with id `i` sits at position `i` (`ORDER BY id`) |
| Table.NewRow | jenkins/scheduler/database.py:45-51 | the inserted row has the given id and record; its lock, reason and date are the saved state of its host, or free with NULL reason and date when the host is new |
| Table.IsCandidateOrder | jenkins/scheduler/database.py:120 | for an order the free-row `SELECT` can produce, there are no candidates exactly when every row is locked |
| Table.LockRow | jenkins/scheduler/database.py:127-133 | a claimed row keeps its id and record, takes the lock name and the date `now`, and its reason is the given reason or `''` when none was given |
| Table.ActiveLocks | jenkins/scheduler/database.py:160 | the held lock names: the lock of every row that is not free, never `''`, and nothing that no row holds |
| Table.Release | jenkins/scheduler/database.py:225 | after a release no row holds the released (non-empty) lock name; every row keeps its id, record, reason and date, and a row not holding that lock is unchanged |
| LockOrder.Less | jenkins/scheduler/database.py:160 | the collation order of `ORDER BY lock`: no name sorts before itself, and a proper prefix sorts first |
| Table.UniqueIds | jenkins/scheduler/database.py:127-133 | when ids equal positions, an update by id touches exactly one row for a present id and none otherwise (the `rowcount == 1` assertions hold) |
| Table.Details | jenkins/scheduler/database.py:192-198 | a report restricted to a host has no key other than that host |
| Table.LockMapHosts | jenkins/scheduler/database.py:34-38 | the saved lock map has an entry for exactly the hosts present in the table |
| Table.LastRowWins | jenkins/scheduler/database.py:37-38 | a host's entry is the lock state of the last row carrying that host |
| Table.UniformHost | jenkins/scheduler/database.py:193-198 | when all rows of a host agree on their lock state, that is the host's entry |
| Table.DetailsForHost | jenkins/scheduler/database.py:197-198 | the report for one host is that host's entry of the full report, or the empty map when the host is absent |
| Table.Sync | jenkins/scheduler/database.py:43-52 | the new table has one row per input record |
| Table.SyncRows | jenkins/scheduler/database.py:43-52 | row `i` of the new table holds record `i` with id `i`, and either the saved lock state of its host or a free lock with NULL reason and date |
| Table.SetThenGet | jenkins/scheduler/database.py:43-52 | after `set_database`, ids are 0..N-1 and reading the table back gives the records in the order given |
| Table.CarryOver | jenkins/scheduler/database.py:45-51 | every host of the new list reports the lock state saved for it, or an unlocked state with no reason and no date when it is new |
| Table.CarryOverHosts | jenkins/scheduler/database.py:34-52 | the new table reports exactly the hosts of the new list, so a host that was dropped loses its lock |
| Table.ClaimedIds | jenkins/scheduler/database.py:124-129 | no more ids are claimed than candidates were offered |
| Table.ClaimedIdsMembers | jenkins/scheduler/database.py:124-129 | an id is claimed if and only if it was offered and its term said yes |
| Table.ClaimRows | jenkins/scheduler/database.py:127-132 | a claim keeps the number of rows |
| Table.ClaimedIdsDistinct | jenkins/scheduler/database.py:119-129 | no row is claimed twice within one call |
| Table.ClaimEffect | jenkins/scheduler/database.py:119-133 | only free rows whose term said yes change; each of them takes the lock, `reason or ''` and `now`; a row's lock name changes if and only if it was claimed |
| Table.ActiveLocksAfterClaim | jenkins/scheduler/database.py:119-133 | after a claim the held lock names are the old ones plus the new lock name, the latter only when some row was claimed |
| Table.ClaimsAreExclusive | jenkins/scheduler/database.py:120 | a later claim is offered none of the rows an earlier claim took |
| Table.NoDecisionNoClaim | jenkins/scheduler/database.py:124-133 | when every term returns a falsy value, nothing is claimed and the table is unchanged |
| Table.EveryDecisionClaimsAll | jenkins/scheduler/database.py:124-133 | when every term returns a truthy value, every candidate is claimed, in the order offered |
| Table.ClaimAllOfFreePool | jenkins/scheduler/database.py:119-133 | on a table whose rows are all free, claiming everything takes every row and returns one record per row |
| Table.ReleaseClears | jenkins/scheduler/database.py:213-217 | after a release the released lock name is no longer held and every other lock name still is |
| Table.ReleaseUnknownLock | jenkins/scheduler/database.py:209-210 | releasing a lock name nobody holds changes nothing |
| Table.ReleaseAfterClaim | jenkins/scheduler/database.py:182-184 | when the lock name was not already held before the claim, releasing the lock of one claim gives every row back its old lock name, while the claimed rows keep the reason and date that the claim wrote |
| Selection.Generate | jenkins/scheduler/database.py:119-122 | one term per candidate |
| Selection.Decide | jenkins/scheduler/database.py:124-126 | one decision per term |
| Selection.Select | jenkins/scheduler/database.py:119-126 | one decision per candidate |
| Selection.GeneratorsRunFirst | jenkins/scheduler/database.py:119-126 | for any selector, the calls happen as generate(c1) .. generate(cn), then term1() .. termn(), and observing them changes neither the decisions nor the state |
| Selection.DecliningSelectsNothing | jenkins/scheduler/database.py:124-126 | a selector whose terms never return a truthy value decides against every candidate |
| Selection.TakeAllSelectsEvery | jenkins/scheduler/database.py:124-126 | a selector whose terms always say yes decides for every candidate |
| Selection.RecorderSeesAll | jenkins/scheduler/database.py:100-106 | the selector `lambda x: lambda: seen_items.append(x)` records every candidate in the order offered and claims none |
| LockOrder.LessIrreflexive | jenkins/scheduler/database.py:160 | no lock name sorts before itself |
| LockOrder.LessTransitive | jenkins/scheduler/database.py:160 | the collation order is transitive |
| LockOrder.LessTotal | jenkins/scheduler/database.py:160 | any two different lock names are ordered one way or the other |
| LockOrder.Insert | jenkins/scheduler/database.py:159-161 | adding a lock name to a strictly ascending list keeps it strictly ascending and adds exactly that name |
| LockOrder.SortedUnique | jenkins/scheduler/database.py:160 | two strictly ascending lists with the same elements are equal, so the reported list is determined by the set of held lock names |

## Left out

- SQLite itself is not modelled: connections, transactions, commit and
  close. Each operation is one atomic method call. Concurrent callers and the
  `EXCLUSIVE` isolation level are not modelled. In the source, the candidate
  `SELECT` of `lock_items` runs before the exclusive transaction begins (the
  first `UPDATE` opens it), and `UPDATE ... WHERE id` does not re-check that
  the row is free. So two concurrent claims can take the same row. The model
  only covers claims made one after another.
- The `eval`/`repr` serialisation of records is not modelled. A record is a
  `Records.Record` value, so malformed data and records without a `HOST` key
  (a `KeyError` in the source) cannot arise.
- The default selector `first()` comes from the `selectors` module, which is
  not part of this model. The caller always passes a selector.
- Store.Database.LockItems: the candidate order and the clock are parameters.
  The model proves results for every permutation of the free rows. It does not
  model randomness or time itself.
- Store.Database.LockItems: one timestamp `now` stands for every clock reading
  of one call. The source evaluates `datetime('now')` in each `UPDATE`, and
  selector terms run between those updates. So the rows claimed in one call
  can get different dates in the source. `Table.ClaimEffect` and
  `Table.ReleaseAfterClaim` state a common date that the source does not
  promise.
- Store.Database.LockItems: records are values. In the source the returned
  items are the same dict objects the selector was given, so a selector that
  mutates them also changes the returned list. The model does not capture
  this aliasing.
- Exceptions raised inside a selector's callables are not modelled. A
  selector is a pair of total functions. Truthiness of a term's result is a
  `bool`.
- Store.Database.SetDatabase: errors in the middle of `set_database` are not
  modelled. Python's sqlite3 opens a transaction only before an `INSERT`, so
  `DROP TABLE` and `CREATE TABLE` take effect at once. If `eval(contents)`
  fails, or a record has no `HOST` key, the source raises with the old table
  gone and an empty `stuff` table left behind. The old lock state is then
  lost.
- The `__main__` doctest runner is not modelled. The doctests informed the
  properties listed above.
- `jobs/query-gerrit-for-changes.py` and `os-dashboard/test_dashboard_post.py`
  are not part of this model. They do not touch the lock store.
- Timestamps are opaque strings. The format that `datetime('now')` produces is
  not modelled.

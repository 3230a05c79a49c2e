/**
 * The scheduler's resource lock store: one SQLite database file holding the
 * table `stuff`.  Each operation opens the file, runs in one transaction and
 * closes it again; here each is one method call on a `Database` object whose
 * fields are the table's current state.
 */
module Store {
  import opened Records
  import opened Table
  import opened LockOrder
  import opened Selection

  /** The first stage of `lock_items`: a term for every candidate, in order. */
  method GenerateTerms<S, T>(selector: Selector<S, T>, state: S, items: seq<Record>) returns (s: S, terms: seq<T>)
    ensures (s, terms) == Generate(selector, state, items)
  {
    s, terms := state, [];
    var k := 0;
    while k < |items|
      invariant 0 <= k <= |items|
      invariant (s, terms) == Generate(selector, state, items[..k])
    {
      assert items[..k + 1][..k] == items[..k];
      var generated := selector.generate(s, items[k]);
      s, terms := generated.0, terms + [generated.1];
      k := k + 1;
    }
    assert items[..|items|] == items;
  }

  class Database {
    /** Whether `set_database` has ever created the table `stuff`. */
    var hasTable: bool
    /** The rows of `stuff` in `id` order. */
    var rows: seq<Row>

    ghost predicate Valid()
      reads this
    {
      && (!hasTable ==> rows == [])
      && IdsAreIndices(rows)
    }

    /** A database file with no table in it yet. */
    constructor ()
      ensures Valid() && !hasTable && rows == []
    {
      hasTable := false;
      rows := [];
    }

    /**
     * Replaces the table with one row per record of `contents`, numbered from 0 in
     * input order.  Before dropping the old table it saves each host's lock state
     * (the last row of a host wins) and hands it on to the new rows of that host.
     */
    method SetDatabase(contents: seq<Record>)
      requires Valid()
      modifies this
      ensures Valid() && hasTable
      ensures rows == Sync(if old(hasTable) then LockMap(old(rows)) else map[], contents)
    {
      var saved: map<string, LockInfo> := map[];
      if hasTable {
        var i := 0;
        while i < |rows|
          invariant 0 <= i <= |rows|
          invariant saved == LockMap(rows[..i])
        {
          assert rows[..i + 1][..i] == rows[..i];
          saved := saved[rows[i].data.host := Info(rows[i])];
          i := i + 1;
        }
        assert rows[..|rows|] == rows;
      }
      // DROP TABLE, CREATE TABLE, then one INSERT per record
      var inserted: seq<Row> := [];
      var id := 0;
      while id < |contents|
        invariant 0 <= id <= |contents|
        invariant inserted == Sync(saved, contents[..id])
      {
        var record := contents[id];
        var row;
        if record.host in saved {
          var l := saved[record.host];
          row := Row(id, record, l.lock, l.reason, l.date);
        } else {
          row := Row(id, record, Unlocked, None, None);
        }
        assert contents[..id + 1][..id] == contents[..id];
        inserted := inserted + [row];
        id := id + 1;
      }
      assert contents[..|contents|] == contents;
      SetThenGet(saved, contents);
      hasTable, rows := true, inserted;
    }

    /** The records in `id` order. */
    method GetDatabase() returns (r: Result<seq<Record>>)
      requires Valid()
      ensures !hasTable ==> r == Err(NoSuchTable)
      ensures hasTable ==> r.Ok? && |r.value| == |rows|
      ensures hasTable ==> forall i :: 0 <= i < |rows| ==> 0 <= rows[i].id < |rows| && r.value[rows[i].id] == rows[i].data
    {
      if !hasTable {
        return Err(NoSuchTable);
      }
      var result: seq<Record> := [];
      var i := 0;
      while i < |rows|
        invariant 0 <= i <= |rows|
        invariant |result| == i
        invariant forall j :: 0 <= j < i ==> result[j] == rows[j].data
      {
        result := result + [rows[i].data];
        i := i + 1;
      }
      r := Ok(result);
    }

    /**
     * Claims free rows for `lock`.  The free rows are offered in `order` (the
     * order `ORDER BY random()` produced); `selector.generate` is called on every
     * candidate first, then each term is called in the same order, and each
     * candidate whose term says yes is locked with `lock`, the reason (or "") and
     * the timestamp `now`.  Returns the claimed records in claim order and the
     * selector's final state.
     */
    method LockItems<S, T>(lock: string, selector: Selector<S, T>, state: S, reason: Option<string>,
                           now: Timestamp, order: seq<nat>)
      returns (r: Result<(seq<Record>, S)>)
      requires Valid()
      requires hasTable ==> IsCandidateOrder(rows, order)
      modifies this
      ensures Valid() && hasTable == old(hasTable)
      ensures lock == Unlocked ==> r == Err(InvalidLock(lock)) && rows == old(rows)
      ensures lock != Unlocked && !hasTable ==> r == Err(NoSuchTable) && rows == old(rows)
      ensures lock != Unlocked && hasTable ==>
                var selected := Select(selector, state, Candidates(old(rows), order));
                var ids := ClaimedIds(order, selected.1);
                && (forall k :: 0 <= k < |ids| ==> ids[k] < |old(rows)|)
                && r == Ok((Claimed(old(rows), ids), selected.0))
                && rows == ClaimRows(old(rows), ids, lock, reason, now)
    {
      if lock == Unlocked {
        return Err(InvalidLock(lock));
      }
      if !hasTable {
        return Err(NoSuchTable);
      }
      // First stage: `term_generator(item)` for every candidate, in the order given.
      var items := Candidates(rows, order);
      var s, terms := GenerateTerms(selector, state, items);

      // Second stage: call each term; lock the row when it says yes.
      var results;
      s, results := ClaimDecided(lock, selector, s, terms, items, order, reason, now);
      r := Ok((results, s));
    }

    /**
     * The second stage of `lock_items`: calls the terms in order and claims the
     * candidate of each term that returns a truthy value, as soon as it does.
     */
    method ClaimDecided<S, T>(lock: string, selector: Selector<S, T>, state: S, terms: seq<T>,
                              items: seq<Record>, order: seq<nat>, reason: Option<string>, now: Timestamp)
      returns (s: S, results: seq<Record>)
      requires Valid() && hasTable && Distinct(order)
      requires forall k :: 0 <= k < |order| ==> order[k] < |rows|
      requires |terms| == |order| && items == Candidates(rows, order)
      modifies this
      ensures Valid() && hasTable
      ensures var decided := Decide(selector, state, terms);
              var ids := ClaimedIds(order, decided.1);
              && (forall k :: 0 <= k < |ids| ==> ids[k] < |old(rows)|)
              && s == decided.0
              && results == Claimed(old(rows), ids)
              && rows == ClaimRows(old(rows), ids, lock, reason, now)
    {
      ghost var before := rows;
      s, results := state, [];
      ghost var decisions: seq<bool> := [];
      ghost var claimedIds: seq<nat> := [];
      var j := 0;
      while j < |terms|
        invariant 0 <= j <= |terms|
        invariant Valid() && hasTable
        invariant (s, decisions) == Decide(selector, state, terms[..j])
        invariant |decisions| == j
        invariant claimedIds == ClaimedIds(order[..j], decisions)
        invariant forall m :: 0 <= m < |claimedIds| ==> claimedIds[m] < |before|
        invariant rows == ClaimRows(before, claimedIds, lock, reason, now)
        invariant results == Claimed(before, claimedIds)
      {
        var decided := selector.decide(s, terms[j]);
        s := decided.0;
        DecideStep(selector, state, terms, j);
        ClaimedIdsStep(order, decisions, j, decided.1);
        if decided.1 {
          var id := order[j];
          NextNotYetClaimed(order, decisions, j);
          ClaimNext(before, claimedIds, id, lock, reason, now);
          results := results + [items[j]];
          claimedIds := claimedIds + [id];
        }
        decisions := decisions + [decided.1];
        j := j + 1;
      }
      assert order[..|order|] == order && terms[..|terms|] == terms;
    }

    /** Claims the row `id` on top of the claims `ids` already made on `before`. */
    method ClaimNext(ghost before: seq<Row>, ghost ids: seq<nat>, id: nat, lock: string,
                     reason: Option<string>, now: Timestamp)
      requires Valid() && hasTable && id < |before| && id !in ids
      requires forall m :: 0 <= m < |ids| ==> ids[m] < |before|
      requires rows == ClaimRows(before, ids, lock, reason, now)
      modifies this
      ensures Valid() && hasTable
      ensures rows == ClaimRows(before, ids + [id], lock, reason, now)
    {
      ClaimOneMore(before, ids, id, lock, reason, now);
      UpdateRow(id, lock, reason, now);
    }

    /** The two `UPDATE ... WHERE id = :id` statements that claim one row; the id
        matches exactly one row, the one at that index. */
    method UpdateRow(id: nat, lock: string, reason: Option<string>, now: Timestamp)
      requires Valid() && hasTable && id < |rows|
      modifies this
      ensures Valid() && hasTable
      ensures rows == old(rows)[id := LockRow(old(rows)[id], lock, reason, now)]
    {
      // UPDATE stuff SET lock = :lock, lock_date = now WHERE id = :id
      UniqueIds(rows, id);
      assert CountId(rows, id) == 1;
      rows := rows[id := rows[id].(lock := lock, date := Some(now))];
      // UPDATE stuff SET lock_reason = :lock_reason WHERE id = :id
      var why := reason.GetOr("");
      UniqueIds(rows, id);
      assert CountId(rows, id) == 1;
      rows := rows[id := rows[id].(reason := Some(why))];
    }

    /** The distinct lock names in use, ascending. */
    method GetLocks() returns (r: Result<seq<string>>)
      requires Valid()
      ensures !hasTable ==> r == Err(NoSuchTable)
      ensures hasTable ==> r.Ok? && StrictlySorted(r.value)
      ensures hasTable ==> forall l :: l in r.value <==> l in ActiveLocks(rows)
    {
      if !hasTable {
        return Err(NoSuchTable);
      }
      var locks: seq<string> := [];
      var i := 0;
      while i < |rows|
        invariant 0 <= i <= |rows|
        invariant StrictlySorted(locks)
        invariant forall l :: l in locks <==> l in ActiveLocks(rows[..i])
      {
        assert ActiveLocks(rows[..i + 1])
            == ActiveLocks(rows[..i]) + (if rows[i].lock != Unlocked then {rows[i].lock} else {}) by {
          assert forall m :: 0 <= m < i ==> rows[..i + 1][m] == rows[..i][m];
        }
        if rows[i].lock != Unlocked {
          locks := Insert(locks, rows[i].lock);
        }
        i := i + 1;
      }
      assert rows[..|rows|] == rows;
      r := Ok(locks);
    }

    /** Each host's lock, reason and date, for every host or for `hostname` only. */
    method GetLockDetails(hostname: Option<string>) returns (r: Result<map<string, LockInfo>>)
      requires Valid()
      ensures !hasTable ==> r == Err(NoSuchTable)
      ensures hasTable ==> r == Ok(Details(rows, hostname))
    {
      if !hasTable {
        return Err(NoSuchTable);
      }
      var locks: map<string, LockInfo> := map[];
      var i := 0;
      while i < |rows|
        invariant 0 <= i <= |rows|
        invariant locks == Details(rows[..i], hostname)
      {
        assert rows[..i + 1][..i] == rows[..i];
        var item := rows[i].data;
        if hostname.None? || item.host == hostname.value {
          locks := locks[item.host := LockInfo(rows[i].lock, rows[i].reason, rows[i].date)];
        }
        i := i + 1;
      }
      assert rows[..|rows|] == rows;
      r := Ok(locks);
    }

    /** Frees every row holding `lock`; their reason and date stay as they were. */
    method ReleaseLock(lock: string) returns (r: Result<()>)
      requires Valid()
      modifies this
      ensures Valid() && hasTable == old(hasTable)
      ensures !hasTable ==> r == Err(NoSuchTable) && rows == old(rows)
      ensures hasTable ==> r == Ok(()) && rows == Release(old(rows), lock)
    {
      if !hasTable {
        return Err(NoSuchTable);
      }
      rows := Release(rows, lock);
      r := Ok(());
    }
  }
}

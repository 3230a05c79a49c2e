/**
 * The `stuff` table as a sequence of rows in `id` order, and what each operation
 * of the scheduler's database does to it, as functions of the rows before the
 * operation.  The methods of `Store.Database` are proved against these.
 */
module Table {
  import opened Records

  /** `set_database` numbers the rows 0, 1, 2, ... in input order, and no other
      operation changes an id, so the row with id `i` sits at position `i`. */
  predicate IdsAreIndices(rows: seq<Row>) {
    forall i :: 0 <= i < |rows| ==> rows[i].id == i
  }

  /** The number of rows an `UPDATE ... WHERE id = :id` touches (SQLite's `rowcount`). */
  function CountId(rows: seq<Row>, id: int): (n: nat)
    ensures n <= |rows|
    ensures n > 0 <==> exists i :: 0 <= i < |rows| && rows[i].id == id
  {
    if rows == [] then 0
    else
      var n := |rows| - 1;
      var k := CountId(rows[..n], id);
      assert (exists i :: 0 <= i < n && rows[..n][i].id == id) <==> (exists i :: 0 <= i < n && rows[i].id == id) by {
        assert forall i :: 0 <= i < n ==> rows[..n][i] == rows[i];
      }
      k + (if rows[n].id == id then 1 else 0)
  }

  /** Ids are unique, so updating one present id touches exactly one row. */
  lemma {:induction false} UniqueIds(rows: seq<Row>, id: int)
    requires IdsAreIndices(rows)
    ensures CountId(rows, id) == if 0 <= id < |rows| then 1 else 0
  {
    if rows != [] {
      UniqueIds(rows[..|rows| - 1], id);
    }
  }

  /** The records, in `id` order: what `get_database` reads back. */
  function Contents(rows: seq<Row>): (r: seq<Record>)
    ensures |r| == |rows|
    ensures IdsAreIndices(rows) ==> forall i :: 0 <= i < |rows| ==> r[rows[i].id] == rows[i].data
  {
    seq(|rows|, i requires 0 <= i < |rows| => rows[i].data)
  }

  // ---------------------------------------------------------------------------
  // Lock state per host: `cur_locks` in set_database and the get_lock_details report

  /**
   * Scans the rows in `id` order and records each accepted row's lock state under
   * its host; a later row with the same host overwrites an earlier one.  With
   * `hostname == None` every row is accepted, otherwise only rows of that host.
   */
  function Details(rows: seq<Row>, hostname: Option<string>): (m: map<string, LockInfo>)
    ensures forall h :: h in m ==> hostname.None? || hostname == Some(h)
  {
    if rows == [] then map[]
    else
      var m := Details(rows[..|rows| - 1], hostname);
      var last := rows[|rows| - 1];
      if hostname.None? || last.data.host == hostname.value then m[last.data.host := Info(last)] else m
  }

  /** The lock state of every host in the table. */
  function LockMap(rows: seq<Row>): map<string, LockInfo> {
    Details(rows, None)
  }

  function Hosts(rows: seq<Row>): set<string> {
    set i | 0 <= i < |rows| :: rows[i].data.host
  }

  /** Every host of the table has an entry, and nothing else does. */
  lemma {:induction false} LockMapHosts(rows: seq<Row>)
    ensures LockMap(rows).Keys == Hosts(rows)
  {
    if rows != [] {
      var n := |rows| - 1;
      LockMapHosts(rows[..n]);
      assert Hosts(rows) == Hosts(rows[..n]) + {rows[n].data.host} by {
        forall h | h in Hosts(rows)
          ensures h in Hosts(rows[..n]) + {rows[n].data.host}
        {
          var i :| 0 <= i < |rows| && rows[i].data.host == h;
          if i < n {
            assert rows[..n][i] == rows[i];
          }
        }
        forall h | h in Hosts(rows[..n])
          ensures h in Hosts(rows)
        {
          var i :| 0 <= i < n && rows[..n][i].data.host == h;
          assert rows[i] == rows[..n][i];
        }
      }
    }
  }

  /** A host's entry is the lock state of the last row carrying that host. */
  lemma {:induction false} LastRowWins(rows: seq<Row>, i: nat)
    requires i < |rows|
    requires forall j :: i < j < |rows| ==> rows[j].data.host != rows[i].data.host
    ensures rows[i].data.host in LockMap(rows)
    ensures LockMap(rows)[rows[i].data.host] == Info(rows[i])
  {
    var n := |rows| - 1;
    if i < n {
      assert rows[..n][i] == rows[i];
      LastRowWins(rows[..n], i);
    }
  }

  /** If all rows of host `h` agree on their lock state `v`, the entry for `h` is `v`. */
  lemma {:induction false} UniformHost(rows: seq<Row>, h: string, v: LockInfo)
    requires h in Hosts(rows)
    requires forall i :: 0 <= i < |rows| && rows[i].data.host == h ==> Info(rows[i]) == v
    ensures h in LockMap(rows) && LockMap(rows)[h] == v
  {
    var n := |rows| - 1;
    if rows[n].data.host != h {
      var i :| 0 <= i < |rows| && rows[i].data.host == h;
      assert rows[..n][i] == rows[i];
      UniformHost(rows[..n], h, v);
    }
  }

  /** Asking for one host gives that host's entry of the full report, or nothing. */
  lemma {:induction false} DetailsForHost(rows: seq<Row>, h: string)
    ensures Details(rows, Some(h)) == if h in LockMap(rows) then map[h := LockMap(rows)[h]] else map[]
  {
    if rows != [] {
      DetailsForHost(rows[..|rows| - 1], h);
    }
  }

  // ---------------------------------------------------------------------------
  // set_database

  /**
   * The row inserted at position `id` for `rec`, given the lock state `saved` from
   * the old table.  A saved entry is a non-empty tuple and so always truthy: a
   * known host takes over lock, reason and date even when its lock was "".  An
   * unknown host starts unlocked, with no reason and no date (NULL, not "").
   */
  function NewRow(id: int, rec: Record, saved: map<string, LockInfo>): (r: Row)
    ensures r.id == id && r.data == rec
    ensures Info(r) == if rec.host in saved then saved[rec.host] else LockInfo(Unlocked, None, None)
  {
    if rec.host in saved then
      var l := saved[rec.host];
      Row(id, rec, l.lock, l.reason, l.date)
    else
      Row(id, rec, Unlocked, None, None)
  }

  /** The new table: one row per input record, in input order. */
  function Sync(saved: map<string, LockInfo>, recs: seq<Record>): (rows: seq<Row>)
    ensures |rows| == |recs|
  {
    if recs == [] then []
    else Sync(saved, recs[..|recs| - 1]) + [NewRow(|recs| - 1, recs[|recs| - 1], saved)]
  }

  lemma {:induction false} SyncRows(saved: map<string, LockInfo>, recs: seq<Record>)
    ensures forall i :: 0 <= i < |recs| ==> Sync(saved, recs)[i] == NewRow(i, recs[i], saved)
  {
    if recs != [] {
      var n := |recs| - 1;
      SyncRows(saved, recs[..n]);
      forall i | 0 <= i < n
        ensures Sync(saved, recs)[i] == NewRow(i, recs[i], saved)
      {
        assert recs[..n][i] == recs[i];
      }
    }
  }

  /** Setting the table and reading it back gives the records in the order given
      (nothing for an empty list), with ids 0..N-1. */
  lemma SetThenGet(saved: map<string, LockInfo>, recs: seq<Record>)
    ensures IdsAreIndices(Sync(saved, recs))
    ensures Contents(Sync(saved, recs)) == recs
  {
    SyncRows(saved, recs);
  }

  /**
   * Lock carry-over, seen through the lock report: every host of the new table
   * keeps the lock state saved for it (whatever rows of the new list share it),
   * and a new host is unlocked with no reason or date.
   */
  lemma CarryOver(saved: map<string, LockInfo>, recs: seq<Record>, i: nat)
    requires i < |recs|
    ensures var m := LockMap(Sync(saved, recs));
            && recs[i].host in m
            && m[recs[i].host] == if recs[i].host in saved then saved[recs[i].host]
                                  else LockInfo(Unlocked, None, None)
  {
    var rows := Sync(saved, recs);
    SyncRows(saved, recs);
    assert rows[i].data.host == recs[i].host;
    UniformHost(rows, recs[i].host, Info(NewRow(0, recs[i], saved)));
  }

  /** The new table reports exactly the hosts of the new list: a host missing from
      it has no entry at all, and its lock is gone. */
  lemma CarryOverHosts(saved: map<string, LockInfo>, recs: seq<Record>)
    ensures LockMap(Sync(saved, recs)).Keys == set r | r in recs :: r.host
  {
    var rows := Sync(saved, recs);
    SyncRows(saved, recs);
    LockMapHosts(rows);
    forall h | h in Hosts(rows)
      ensures h in set r | r in recs :: r.host
    {
      var i :| 0 <= i < |rows| && rows[i].data.host == h;
      assert recs[i] in recs;
    }
    forall h | h in set r | r in recs :: r.host
      ensures h in Hosts(rows)
    {
      var r :| r in recs && r.host == h;
      var i :| 0 <= i < |recs| && recs[i] == r;
      assert rows[i].data.host == h;
    }
  }

  // ---------------------------------------------------------------------------
  // lock_items

  predicate Distinct(s: seq<nat>) {
    forall k, l :: 0 <= k < l < |s| ==> s[k] != s[l]
  }

  /** `order` is one of the orders `SELECT ... WHERE lock = '' ORDER BY random()` can
      produce: every unlocked row's id exactly once, and nothing else. */
  predicate IsCandidateOrder(rows: seq<Row>, order: seq<nat>)
    ensures IsCandidateOrder(rows, order) ==>
              (order == [] <==> forall i :: 0 <= i < |rows| ==> rows[i].lock != Unlocked)
  {
    var offersOnlyFree := forall k :: 0 <= k < |order| ==> order[k] < |rows| && rows[order[k]].lock == Unlocked;
    assert offersOnlyFree && order != [] ==> order[0] < |rows| && rows[order[0]].lock == Unlocked;
    && offersOnlyFree
    && (forall i :: 0 <= i < |rows| && rows[i].lock == Unlocked ==> i in order)
    && Distinct(order)
  }

  /** The records of the candidates, in the order they are offered to the selector. */
  function Candidates(rows: seq<Row>, order: seq<nat>): seq<Record>
    requires forall k :: 0 <= k < |order| ==> order[k] < |rows|
  {
    seq(|order|, k requires 0 <= k < |order| => rows[order[k]].data)
  }

  /** The ids whose term returned a truthy value, in the order they were claimed. */
  function ClaimedIds(order: seq<nat>, decisions: seq<bool>): (ids: seq<nat>)
    requires |decisions| == |order|
    ensures |ids| <= |order|
  {
    if order == [] then []
    else
      var n := |order| - 1;
      ClaimedIds(order[..n], decisions[..n]) + (if decisions[n] then [order[n]] else [])
  }

  /** An id is claimed exactly when its term said yes. */
  lemma {:induction false} ClaimedIdsMembers(order: seq<nat>, decisions: seq<bool>)
    requires |decisions| == |order|
    ensures forall x :: x in ClaimedIds(order, decisions) ==>
              exists k :: 0 <= k < |order| && order[k] == x && decisions[k]
    ensures forall k :: 0 <= k < |order| && decisions[k] ==> order[k] in ClaimedIds(order, decisions)
  {
    if order != [] {
      var n := |order| - 1;
      var ids := ClaimedIds(order[..n], decisions[..n]);
      ClaimedIdsMembers(order[..n], decisions[..n]);
      forall x | x in ids
        ensures exists k :: 0 <= k < n && order[k] == x && decisions[k]
      {
        var k :| 0 <= k < n && order[..n][k] == x && decisions[..n][k];
        assert order[k] == x && decisions[k];
      }
      forall k | 0 <= k < n && decisions[k]
        ensures order[k] in ids
      {
        assert order[..n][k] == order[k] && decisions[..n][k];
      }
    }
  }

  /** A claimed row: lock name, `lock_reason or ''` and the claim's timestamp. */
  function LockRow(row: Row, lock: string, reason: Option<string>, now: Timestamp): (r: Row)
    ensures r.id == row.id && r.data == row.data
    ensures r.lock == lock && r.date == Some(now)
    ensures r.reason.Some? && (reason.Some? ==> r.reason == reason) && (reason.None? ==> r.reason == Some(""))
  {
    row.(lock := lock, reason := Some(reason.GetOr("")), date := Some(now))
  }

  /** The table after the rows in `ids` are claimed. */
  function ClaimRows(rows: seq<Row>, ids: seq<nat>, lock: string, reason: Option<string>, now: Timestamp): (r: seq<Row>)
    ensures |r| == |rows|
  {
    seq(|rows|, i requires 0 <= i < |rows| => if i in ids then LockRow(rows[i], lock, reason, now) else rows[i])
  }

  /** What `lock_items` returns: the records of the claimed rows, in claim order. */
  function Claimed(rows: seq<Row>, ids: seq<nat>): seq<Record>
    requires forall k :: 0 <= k < |ids| ==> ids[k] < |rows|
  {
    seq(|ids|, k requires 0 <= k < |ids| => rows[ids[k]].data)
  }

  lemma ClaimedIdsStep(order: seq<nat>, decisions: seq<bool>, j: nat, d: bool)
    requires |decisions| == j < |order|
    ensures ClaimedIds(order[..j + 1], decisions + [d])
         == ClaimedIds(order[..j], decisions) + (if d then [order[j]] else [])
  {
    assert order[..j + 1][..j] == order[..j] && (decisions + [d])[..j] == decisions;
  }

  lemma NextNotYetClaimed(order: seq<nat>, decisions: seq<bool>, j: nat)
    requires |decisions| == j < |order| && Distinct(order)
    ensures order[j] !in ClaimedIds(order[..j], decisions)
  {
    ClaimedIdsMembers(order[..j], decisions);
    assert forall m :: 0 <= m < j ==> order[..j][m] == order[m];
  }

  lemma ClaimOneMore(rows: seq<Row>, ids: seq<nat>, id: nat, lock: string, reason: Option<string>, now: Timestamp)
    requires id < |rows| && id !in ids
    requires forall m :: 0 <= m < |ids| ==> ids[m] < |rows|
    ensures ClaimRows(rows, ids, lock, reason, now)[id := LockRow(rows[id], lock, reason, now)]
         == ClaimRows(rows, ids + [id], lock, reason, now)
    ensures Claimed(rows, ids) + [rows[id].data] == Claimed(rows, ids + [id])
  {
  }

  lemma {:induction false} ClaimedIdsDistinct(order: seq<nat>, decisions: seq<bool>)
    requires |decisions| == |order| && Distinct(order)
    ensures Distinct(ClaimedIds(order, decisions))
  {
    if order != [] {
      var n := |order| - 1;
      ClaimedIdsDistinct(order[..n], decisions[..n]);
      var ids := ClaimedIds(order[..n], decisions[..n]);
      ClaimedIdsMembers(order[..n], decisions[..n]);
      if decisions[n] {
        forall x | x in ids
          ensures x != order[n]
        {
          var k :| 0 <= k < n && order[..n][k] == x && decisions[..n][k];
        }
        assert forall m :: 0 <= m < |ids| ==> ids[m] in ids;
      }
    }
  }

  /**
   * What `lock_items` changes: exactly the rows that were unlocked and whose term
   * said yes take the new lock, reason and date; every other row, in particular
   * every row already locked, is unchanged; and the result lists each claimed
   * row once, in claim order.
   */
  lemma ClaimEffect(rows: seq<Row>, order: seq<nat>, decisions: seq<bool>, lock: string, reason: Option<string>, now: Timestamp)
    requires IsCandidateOrder(rows, order) && |decisions| == |order| && lock != Unlocked
    ensures var ids := ClaimedIds(order, decisions);
            var after := ClaimRows(rows, ids, lock, reason, now);
            && Distinct(ids)
            && |after| == |rows|
            && (forall k :: 0 <= k < |order| && decisions[k] ==>
                  after[order[k]] == LockRow(rows[order[k]], lock, reason, now))
            && (forall i :: 0 <= i < |rows| && after[i] != rows[i] ==>
                  rows[i].lock == Unlocked && exists k :: 0 <= k < |order| && order[k] == i && decisions[k])
            && (forall i :: 0 <= i < |rows| ==> (after[i].lock != rows[i].lock <==> i in ids))
  {
    ClaimedIdsDistinct(order, decisions);
    ClaimedIdsMembers(order, decisions);
  }

  function ActiveLocks(rows: seq<Row>): (r: set<string>)
    ensures Unlocked !in r
    ensures forall i :: 0 <= i < |rows| && rows[i].lock != Unlocked ==> rows[i].lock in r
    ensures forall l :: l in r ==> exists i :: 0 <= i < |rows| && rows[i].lock == l
  {
    set i | 0 <= i < |rows| && rows[i].lock != Unlocked :: rows[i].lock
  }

  /** After a claim that took at least one row, its lock is held; other held locks
      stay held, since a claim only takes free rows. */
  lemma ActiveLocksAfterClaim(rows: seq<Row>, order: seq<nat>, decisions: seq<bool>, lock: string, reason: Option<string>, now: Timestamp)
    requires IsCandidateOrder(rows, order) && |decisions| == |order| && lock != Unlocked
    ensures var ids := ClaimedIds(order, decisions);
            ActiveLocks(ClaimRows(rows, ids, lock, reason, now))
              == ActiveLocks(rows) + (if ids == [] then {} else {lock})
  {
    var ids := ClaimedIds(order, decisions);
    var after := ClaimRows(rows, ids, lock, reason, now);
    ClaimedIdsMembers(order, decisions);
    forall l | l in ActiveLocks(after)
      ensures l in ActiveLocks(rows) + (if ids == [] then {} else {lock})
    {
      var i :| 0 <= i < |after| && after[i].lock != Unlocked && after[i].lock == l;
      if i !in ids {
        assert rows[i].lock == l;
      }
    }
    forall l | l in ActiveLocks(rows) + (if ids == [] then {} else {lock})
      ensures l in ActiveLocks(after)
    {
      if l in ActiveLocks(rows) {
        var i :| 0 <= i < |rows| && rows[i].lock != Unlocked && rows[i].lock == l;
        assert i !in ids;
        assert after[i].lock == l;
      } else {
        assert ids[0] in ids;
        assert after[ids[0]].lock == lock;
      }
    }
  }

  /** A claim made after this one has completed is offered none of the rows this
      claim took, so claims made one after another never share a row. */
  lemma ClaimsAreExclusive(rows: seq<Row>, order: seq<nat>, decisions: seq<bool>, lock: string,
                           reason: Option<string>, now: Timestamp, nextOrder: seq<nat>)
    requires IsCandidateOrder(rows, order) && |decisions| == |order| && lock != Unlocked
    requires IsCandidateOrder(ClaimRows(rows, ClaimedIds(order, decisions), lock, reason, now), nextOrder)
    ensures forall x :: x in nextOrder ==> x !in ClaimedIds(order, decisions)
  {
    ClaimedIdsMembers(order, decisions);
  }

  /** When no term says yes, nothing is claimed and the table is unchanged. */
  lemma {:induction false} NoDecisionNoClaim(rows: seq<Row>, order: seq<nat>, decisions: seq<bool>,
                                             lock: string, reason: Option<string>, now: Timestamp)
    requires |decisions| == |order|
    requires forall k :: 0 <= k < |decisions| ==> !decisions[k]
    ensures ClaimedIds(order, decisions) == []
    ensures ClaimRows(rows, ClaimedIds(order, decisions), lock, reason, now) == rows
  {
    if order != [] {
      var n := |order| - 1;
      NoDecisionNoClaim(rows, order[..n], decisions[..n], lock, reason, now);
    }
  }

  /** When every term says yes, every candidate is claimed, in the order offered. */
  lemma {:induction false} EveryDecisionClaimsAll(order: seq<nat>, decisions: seq<bool>)
    requires |decisions| == |order|
    requires forall k :: 0 <= k < |decisions| ==> decisions[k]
    ensures ClaimedIds(order, decisions) == order
  {
    if order != [] {
      var n := |order| - 1;
      EveryDecisionClaimsAll(order[..n], decisions[..n]);
      assert order[..n] + [order[n]] == order;
    }
  }

  function Elements(s: seq<nat>): set<nat> {
    set x | x in s
  }

  lemma {:induction false} DistinctSize(s: seq<nat>)
    requires Distinct(s)
    ensures |Elements(s)| == |s|
  {
    if s != [] {
      var n := |s| - 1;
      DistinctSize(s[..n]);
      assert s == s[..n] + [s[n]];
      assert Elements(s) == Elements(s[..n]) + {s[n]};
      assert s[n] !in Elements(s[..n]);
    } else {
      assert Elements(s) == {};
    }
  }

  /** The ids 0 .. n-1. */
  function IndexSet(n: nat): (r: set<nat>)
    ensures |r| == n
    ensures forall i: int :: i in r <==> 0 <= i < n
  {
    if n == 0 then {} else IndexSet(n - 1) + {n - 1}
  }

  /** On a table with every row free, a claim whose terms all say yes takes every
      row: it returns one record per row and leaves every row holding its lock. */
  lemma ClaimAllOfFreePool(rows: seq<Row>, order: seq<nat>, decisions: seq<bool>,
                           lock: string, reason: Option<string>, now: Timestamp)
    requires IsCandidateOrder(rows, order) && |decisions| == |order| && lock != Unlocked
    requires forall i :: 0 <= i < |rows| ==> rows[i].lock == Unlocked
    requires forall k :: 0 <= k < |decisions| ==> decisions[k]
    ensures |ClaimedIds(order, decisions)| == |rows|
    ensures forall i :: 0 <= i < |rows| ==> ClaimRows(rows, ClaimedIds(order, decisions), lock, reason, now)[i].lock == lock
  {
    EveryDecisionClaimsAll(order, decisions);
    DistinctSize(order);
    assert Elements(order) == IndexSet(|rows|);
  }

  // ---------------------------------------------------------------------------
  // release_lock

  /** `UPDATE stuff SET lock = '' WHERE lock = :lock`: reason and date are kept. */
  function Release(rows: seq<Row>, lock: string): (r: seq<Row>)
    ensures |r| == |rows|
    ensures lock != Unlocked ==> forall i :: 0 <= i < |r| ==> r[i].lock != lock
    ensures forall i :: 0 <= i < |r| ==>
              && r[i].id == rows[i].id && r[i].data == rows[i].data
              && r[i].reason == rows[i].reason && r[i].date == rows[i].date
              && (rows[i].lock != lock ==> r[i] == rows[i])
  {
    seq(|rows|, i requires 0 <= i < |rows| => if rows[i].lock == lock then rows[i].(lock := Unlocked) else rows[i])
  }

  /** After a release the released lock is no longer held and every other lock
      still is. */
  lemma ReleaseClears(rows: seq<Row>, lock: string)
    ensures ActiveLocks(Release(rows, lock)) == ActiveLocks(rows) - {lock}
  {
    var after := Release(rows, lock);
    forall l | l in ActiveLocks(rows) - {lock}
      ensures l in ActiveLocks(after)
    {
      var i :| 0 <= i < |rows| && rows[i].lock != Unlocked && rows[i].lock == l;
      assert after[i].lock == l;
    }
  }

  /** Releasing a lock nobody holds changes nothing. */
  lemma ReleaseUnknownLock(rows: seq<Row>, lock: string)
    requires lock !in ActiveLocks(rows)
    ensures Release(rows, lock) == rows
  {
    forall i | 0 <= i < |rows|
      ensures Release(rows, lock)[i] == rows[i]
    {
      assert rows[i].lock != Unlocked ==> rows[i].lock in ActiveLocks(rows);
    }
  }

  /**
   * Releasing a lock taken by one claim undoes the claim's lock names exactly:
   * every row holds the lock name it had before the claim, while the claimed rows
   * keep the reason and date the claim wrote.
   */
  lemma ReleaseAfterClaim(rows: seq<Row>, order: seq<nat>, decisions: seq<bool>,
                          lock: string, reason: Option<string>, now: Timestamp)
    requires IsCandidateOrder(rows, order) && |decisions| == |order| && lock != Unlocked
    requires lock !in ActiveLocks(rows)
    ensures var ids := ClaimedIds(order, decisions);
            var after := Release(ClaimRows(rows, ids, lock, reason, now), lock);
            && |after| == |rows|
            && (forall i :: 0 <= i < |rows| ==> after[i].lock == rows[i].lock)
            && (forall i :: 0 <= i < |rows| && i in ids ==>
                  after[i].reason == Some(reason.GetOr("")) && after[i].date == Some(now))
            && (forall i :: 0 <= i < |rows| && i !in ids ==> after[i] == rows[i])
  {
    ClaimedIdsMembers(order, decisions);
    forall i | 0 <= i < |rows|
      ensures rows[i].lock != lock
    {
      assert rows[i].lock != Unlocked ==> rows[i].lock in ActiveLocks(rows);
    }
  }
}

/** The values kept in the scheduler's `stuff` table and returned by its operations. */
module Records {

  datatype Option<+T> = None | Some(value: T) {
    /** The value, or `default` when there is none (Python's `x or default` on an optional string). */
    function GetOr(default: T): T {
      if Some? then value else default
    }
  }

  /** A resource descriptor: the `HOST` entry that identifies it, and its other
      attributes.  `attrs` holds every entry except `HOST`, so the two never disagree. */
  datatype Record = Record(host: string, attrs: map<string, string>)

  /** The text SQLite's `datetime('now')` produces; the clock itself is a parameter. */
  type Timestamp = string

  /** The lock name that marks a row as free. */
  const Unlocked: string := ""

  /**
   * One row of the table, column by column: `id INTEGER PRIMARY KEY`, `data`,
   * `lock`, `lock_reason` and `lock_date`.  The last two are nullable.
   */
  datatype Row = Row(id: int, data: Record, lock: string, reason: Option<string>, date: Option<Timestamp>)

  /** The lock state of one host: the `(lock, lock_date, reason)` tuple saved across a
      re-synchronisation and the `{lock, reason, date}` entry of a lock report. */
  datatype LockInfo = LockInfo(lock: string, reason: Option<string>, date: Option<Timestamp>)

  function Info(row: Row): LockInfo {
    LockInfo(row.lock, row.reason, row.date)
  }

  /** `InvalidLock` is the `ValueError` for the empty lock name; `NoSuchTable` is SQLite's
      error for a database on which `set_database` has never run. */
  datatype Error = InvalidLock(lock: string) | NoSuchTable

  datatype Result<+T> = Ok(value: T) | Err(error: Error)
}

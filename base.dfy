/** Types and configuration shared by every part of the disk-usage monitor. */
module Base {

  datatype Option<+T> = None | Some(value: T)

  datatype Result<+T, +E> = Ok(value: T) | Err(error: E)

  /** Sampling period in seconds; also the right-hand margin of the computed x-range. */
  const INTERVAL_SEC: int := 10

  /** Number of newest rows one read of the table returns (one day at one row per 10 s). */
  const LIMIT_ROW: nat := 8640

  /** Presentation shift applied to every loaded timestamp: nine hours (Asia/Tokyo), in seconds. */
  const TOKYO_OFFSET: int := 9 * 3600

  /** One row of the `data` table: when it was taken, and the volume's size and used bytes. */
  datatype Sample = Sample(timestamp: int, size: int, used: int)

  /** The rows are ordered by their key, with no key repeated. */
  predicate StrictlyAscending(rows: seq<Sample>) {
    forall i, j :: 0 <= i < j < |rows| ==> rows[i].timestamp < rows[j].timestamp
  }

  /** The set of keys (timestamps) present in `rows`. */
  function Keys(rows: seq<Sample>): set<int> {
    set r | r in rows :: r.timestamp
  }

  function Min(a: int, b: int): int {
    if a <= b then a else b
  }
}

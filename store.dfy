/**
 * The `data` table: created by db_init, written one row per tick by save_data,
 * read by load_data. The rows are kept in ascending key order, the order in
 * which SQLite stores a table whose INTEGER PRIMARY KEY is the timestamp.
 */
module Store {
  import opened Base
  import Probe

  /** The INSERT violated the primary key (sqlite3.IntegrityError). */
  datatype StoreError = DuplicateKey(timestamp: int)

  /** Why one tick of the sampler stored nothing; neither is caught by the loop. */
  datatype TickError = ProbeFailed(probeError: Probe.ProbeError) | InsertFailed(storeError: StoreError)

  /** Where a row with key `t` belongs among ascending rows: the number of rows with a smaller key. */
  function Position(rows: seq<Sample>, t: int): (i: nat)
    requires StrictlyAscending(rows)
    ensures i <= |rows|
    ensures forall j :: 0 <= j < i ==> rows[j].timestamp < t
    ensures forall j :: i <= j < |rows| ==> rows[j].timestamp >= t
  {
    if rows == [] || rows[0].timestamp >= t then 0 else 1 + Position(rows[1..], t)
  }

  class Table {
    /** The stored rows, in ascending key order. */
    var rows: seq<Sample>

    ghost predicate Valid()
      reads this
    {
      StrictlyAscending(rows)
    }

    /** db_init on a new database file: the table exists and holds no row. */
    constructor ()
      ensures Valid() && rows == []
    {
      rows := [];
    }

    /**
     * `INSERT INTO data VALUES (?,?,?)`. The timestamp is the primary key: a row
     * whose key is already stored is refused and the table is left as it was;
     * otherwise the table gains exactly that row.
     */
    method Insert(s: Sample) returns (r: Result<(), StoreError>)
      requires Valid()
      modifies this
      ensures Valid()
      ensures r.Err? <==> s.timestamp in Keys(old(rows))
      ensures r.Err? ==> r.error == DuplicateKey(s.timestamp) && rows == old(rows)
      ensures r.Ok? ==> multiset(rows) == multiset(old(rows)) + multiset{s}
    {
      var i := Position(rows, s.timestamp);
      if i < |rows| && rows[i].timestamp == s.timestamp {
        assert rows[i] in rows;
        return Err(DuplicateKey(s.timestamp));
      }
      InsertAt(rows, i, s);
      rows := rows[..i] + [s] + rows[i..];
      r := Ok(());
    }

    /**
     * One pass of save_data's loop body: probe (the report text and the clock
     * reading are inputs), then insert. A failure of either step stores nothing.
     */
    method SaveTick(output: string, now: int) returns (r: Result<Sample, TickError>)
      requires Valid()
      modifies this
      ensures Valid()
      ensures Probe.ParseDiskSpace(output, now).Err? ==>
        r == Err(ProbeFailed(Probe.ParseDiskSpace(output, now).error)) && rows == old(rows)
      ensures Probe.ParseDiskSpace(output, now).Ok? ==>
        var s := Probe.ParseDiskSpace(output, now).value;
        && (s.timestamp in Keys(old(rows)) ==>
              r == Err(InsertFailed(DuplicateKey(s.timestamp))) && rows == old(rows))
        && (s.timestamp !in Keys(old(rows)) ==>
              r == Ok(s) && multiset(rows) == multiset(old(rows)) + multiset{s})
    {
      var data := Probe.ParseDiskSpace(output, now);
      if data.Err? {
        return Err(ProbeFailed(data.error));
      }
      var inserted := Insert(data.value);
      if inserted.Err? {
        return Err(InsertFailed(inserted.error));
      }
      r := Ok(data.value);
    }
  }

  /**
   * Putting `s` at its position among ascending rows that lack its key keeps the
   * rows ascending and adds exactly `s`.
   */
  lemma InsertAt(rows: seq<Sample>, i: nat, s: Sample)
    requires StrictlyAscending(rows)
    requires i == Position(rows, s.timestamp)
    requires !(i < |rows| && rows[i].timestamp == s.timestamp)
    ensures s.timestamp !in Keys(rows)
    ensures StrictlyAscending(rows[..i] + [s] + rows[i..])
    ensures multiset(rows[..i] + [s] + rows[i..]) == multiset(rows) + multiset{s}
  {
    var t := s.timestamp;
    forall j | i <= j < |rows| ensures rows[j].timestamp > t {
      if j > i {
        assert rows[i].timestamp < rows[j].timestamp;
      }
    }
    NotAKey(rows, t);
    InsertBetween(rows, i, s);
    InsertAdds(rows, i, s);
  }

  /** A key no row carries is not among the keys. */
  lemma NotAKey(rows: seq<Sample>, t: int)
    requires forall j :: 0 <= j < |rows| ==> rows[j].timestamp != t
    ensures t !in Keys(rows)
  {
    forall x | x in rows ensures x.timestamp != t {
      var j :| 0 <= j < |rows| && rows[j] == x;
    }
  }

  /** Splicing a row in anywhere adds exactly that row. */
  lemma InsertAdds(rows: seq<Sample>, i: nat, s: Sample)
    requires i <= |rows|
    ensures multiset(rows[..i] + [s] + rows[i..]) == multiset(rows) + multiset{s}
  {
    assert rows == rows[..i] + rows[i..];
  }

  /** A row whose key lies between the rows before `i` and those from `i` on keeps the order. */
  lemma InsertBetween(rows: seq<Sample>, i: nat, s: Sample)
    requires StrictlyAscending(rows) && i <= |rows|
    requires forall j :: 0 <= j < i ==> rows[j].timestamp < s.timestamp
    requires forall j :: i <= j < |rows| ==> rows[j].timestamp > s.timestamp
    ensures StrictlyAscending(rows[..i] + [s] + rows[i..])
  {
    var u := rows[..i] + [s] + rows[i..];
    assert forall k :: 0 <= k < i ==> u[k] == rows[k];
    assert u[i] == s;
    assert forall k :: i < k < |u| ==> u[k] == rows[k - 1];
  }

  /** A row as load_data presents it: its timestamp moved nine hours ahead. */
  function Shifted(r: Sample): (x: Sample)
    ensures x.timestamp - TOKYO_OFFSET == r.timestamp && x.size == r.size && x.used == r.used
  {
    r.(timestamp := r.timestamp + TOKYO_OFFSET)
  }

  /**
   * load_data: the newest LIMIT_ROW rows (ORDER BY timestamp DESC LIMIT LIMIT_ROW),
   * put back in ascending order, each timestamp shifted by nine hours.
   */
  function LoadWindow(rows: seq<Sample>): (w: seq<Sample>)
    ensures |w| == Min(LIMIT_ROW, |rows|)
    ensures forall i :: 0 <= i < |w| ==> w[i] == Shifted(rows[|rows| - |w| + i])
  {
    var newest := if |rows| <= LIMIT_ROW then rows else rows[|rows| - LIMIT_ROW..];
    seq(|newest|, i requires 0 <= i < |newest| => Shifted(newest[i]))
  }

  /** How many rows have a key larger than `t`. */
  function CountNewer(rows: seq<Sample>, t: int): nat {
    if rows == [] then 0
    else (if rows[0].timestamp > t then 1 else 0) + CountNewer(rows[1..], t)
  }

  /** In a table with unique ascending keys, the row at position j has exactly the later rows newer than it. */
  lemma {:induction false} CountNewerAt(rows: seq<Sample>, j: nat)
    requires StrictlyAscending(rows) && j < |rows|
    ensures CountNewer(rows, rows[j].timestamp) == |rows| - 1 - j
  {
    if j == 0 {
      AllNewer(rows[1..], rows[0].timestamp);
    } else {
      CountNewerAt(rows[1..], j - 1);
    }
  }

  lemma {:induction false} AllNewer(rows: seq<Sample>, t: int)
    requires forall k :: 0 <= k < |rows| ==> rows[k].timestamp > t
    ensures CountNewer(rows, t) == |rows|
  {
    if rows != [] {
      AllNewer(rows[1..], t);
    }
  }

  /** The window keeps the ascending order of the table. */
  lemma WindowAscending(rows: seq<Sample>)
    requires StrictlyAscending(rows)
    ensures StrictlyAscending(LoadWindow(rows))
  {
    var w := LoadWindow(rows);
    forall i, j | 0 <= i < j < |w| ensures w[i].timestamp < w[j].timestamp {
      assert w[i] == Shifted(rows[|rows| - |w| + i]);
      assert w[j] == Shifted(rows[|rows| - |w| + j]);
    }
  }

  /**
   * What the windowed read returns, stated without positions: every returned row
   * is a stored row (shifted, size and used unchanged), and a stored row is
   * returned exactly when fewer than LIMIT_ROW stored rows are newer than it.
   */
  lemma WindowIsNewest(rows: seq<Sample>)
    requires StrictlyAscending(rows)
    ensures forall x :: x in LoadWindow(rows) ==>
      Sample(x.timestamp - TOKYO_OFFSET, x.size, x.used) in rows
    ensures forall r :: r in rows ==>
      (Shifted(r) in LoadWindow(rows) <==> CountNewer(rows, r.timestamp) < LIMIT_ROW)
  {
    var w := LoadWindow(rows);
    var n := |rows|;
    forall x | x in w ensures Sample(x.timestamp - TOKYO_OFFSET, x.size, x.used) in rows {
      var i :| 0 <= i < |w| && w[i] == x;
      assert rows[n - |w| + i] == Sample(x.timestamp - TOKYO_OFFSET, x.size, x.used);
    }
    forall r | r in rows
      ensures Shifted(r) in w <==> CountNewer(rows, r.timestamp) < LIMIT_ROW
    {
      var j :| 0 <= j < n && rows[j] == r;
      InWindowAt(rows, j);
    }
  }

  /** The row at position j is in the window exactly when fewer than LIMIT_ROW rows are newer. */
  lemma InWindowAt(rows: seq<Sample>, j: nat)
    requires StrictlyAscending(rows) && j < |rows|
    ensures Shifted(rows[j]) in LoadWindow(rows) <==> CountNewer(rows, rows[j].timestamp) < LIMIT_ROW
  {
    var w := LoadWindow(rows);
    var start := |rows| - |w|;
    CountNewerAt(rows, j);
    if j >= start {
      assert w[j - start] == Shifted(rows[j]);
    } else {
      forall i | 0 <= i < |w| ensures w[i].timestamp != Shifted(rows[j]).timestamp {
        assert rows[j].timestamp < rows[start + i].timestamp;
      }
    }
  }

  /** Keys are unique: the table holds as many distinct timestamps as rows. */
  lemma {:induction false} KeysAreUnique(rows: seq<Sample>)
    requires StrictlyAscending(rows)
    ensures |Keys(rows)| == |rows|
  {
    if rows != [] {
      var last := rows[|rows| - 1];
      var init := rows[..|rows| - 1];
      KeysAreUnique(init);
      assert rows == init + [last];
      KeysAppend(init, last);
      forall j | 0 <= j < |init| ensures init[j].timestamp != last.timestamp {
        assert rows[j].timestamp < rows[|rows| - 1].timestamp;
      }
      NotAKey(init, last.timestamp);
    }
  }

  /** Appending a row adds its key to the keys. */
  lemma KeysAppend(init: seq<Sample>, last: Sample)
    ensures Keys(init + [last]) == Keys(init) + {last.timestamp}
  {
    var u := init + [last];
    forall t | t in Keys(u) ensures t in Keys(init) + {last.timestamp} {
      var x :| x in u && x.timestamp == t;
    }
    forall t | t in Keys(init) + {last.timestamp} ensures t in Keys(u) {
      if t == last.timestamp {
        assert last in u;
      } else {
        var x :| x in init && x.timestamp == t;
        assert x in u;
      }
    }
  }
}

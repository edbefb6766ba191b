/** The stand-alone reset script: one `UPDATE teams SET votes = 0` on the
    server's table. It zeroes every tally and does nothing else: no row is
    deleted or inserted and the AUTOINCREMENT counter is not touched. */
module Reset {
  import opened App

  /** The rows after every tally is set to 0. */
  function Zeroed(rows: seq<Team>): (r: seq<Team>)
    ensures |r| == |rows|
  {
    if rows == [] then []
    else Zeroed(rows[..|rows| - 1]) + [rows[|rows| - 1].(votes := 0)]
  }

  /** Each row keeps its id and name, in the same position, and its tally
      becomes 0. */
  lemma {:induction false} ZeroedAt(rows: seq<Team>, k: nat)
    requires k < |rows|
    ensures Zeroed(rows)[k] == rows[k].(votes := 0)
    ensures Zeroed(rows)[k].id == rows[k].id
    ensures Zeroed(rows)[k].name == rows[k].name
    ensures Zeroed(rows)[k].votes == 0
  {
    if k < |rows| - 1 {
      ZeroedAt(rows[..|rows| - 1], k);
    }
  }

  /** Resetting twice is the same as resetting once. */
  lemma {:induction false} ZeroedIdempotent(rows: seq<Team>)
    ensures Zeroed(Zeroed(rows)) == Zeroed(rows)
  {
    forall k | 0 <= k < |rows| ensures Zeroed(Zeroed(rows))[k] == Zeroed(rows)[k] {
      ZeroedAt(rows, k);
      ZeroedAt(Zeroed(rows), k);
    }
  }

  /** After a reset the total of all tallies is 0. */
  lemma {:induction false} ZeroedTally(rows: seq<Team>)
    ensures Tally(Zeroed(rows)) == 0
  {
    if rows != [] {
      ZeroedTally(rows[..|rows| - 1]);
      assert Zeroed(rows)[..|rows| - 1] == Zeroed(rows[..|rows| - 1]);
    }
  }

  /** A reset keeps the table well formed, its counter included. */
  lemma ZeroedWellFormed(t: Table)
    requires WellFormed(t)
    ensures WellFormed(Table(Zeroed(t.rows), t.nextId))
  {
    forall k | 0 <= k < |t.rows| {
      ZeroedAt(t.rows, k);
    }
  }

  /** Running the script against the server's table: each row in turn has
      its tally overwritten with 0. */
  method ResetVotes(db: TeamsDb)
    requires db.Valid()
    modifies db
    ensures db.Valid()
    ensures db.rows == Zeroed(old(db.rows)) && db.nextId == old(db.nextId)
  {
    var k := 0;
    while k < |db.rows|
      invariant k <= |db.rows| == |old(db.rows)|
      invariant forall j :: 0 <= j < k ==> db.rows[j] == old(db.rows)[j].(votes := 0)
      invariant forall j :: k <= j < |db.rows| ==> db.rows[j] == old(db.rows)[j]
      invariant db.nextId == old(db.nextId)
    {
      db.rows := db.rows[k := db.rows[k].(votes := 0)];
      k := k + 1;
    }
    forall j | 0 <= j < |db.rows| ensures db.rows[j] == Zeroed(old(db.rows))[j] {
      ZeroedAt(old(db.rows), j);
    }
    ZeroedWellFormed(old(db.Snapshot()));
  }
}

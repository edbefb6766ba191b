/** The `teams` table of the voting server and the three operations the
    server performs on it: seeding the roster when the table is empty,
    listing every row, and adding one vote to the row with a given id.

    The table is held in memory. Its rows are kept in rowid order, which
    is the order in which the server inserts them and in which a plain
    `SELECT` returns them. `nextId` stands for the AUTOINCREMENT counter:
    the id the next inserted row receives. */
module App {
  import opened Numerals

  /** One row of `teams`: INTEGER PRIMARY KEY id, TEXT name, INTEGER votes. */
  datatype Team = Team(id: int, name: string, votes: int)

  /** The whole table together with its AUTOINCREMENT counter. */
  datatype Table = Table(rows: seq<Team>, nextId: int)

  /** How many teams the server seeds into an empty table. */
  const RosterSize: nat := 10

  /** The name the server gives to the `n`-th seeded team. */
  function TeamName(n: nat): (name: string)
    ensures |name| > 5 && name[..5] == "Team "
    ensures name[5] != '0' || |name| == 6
    ensures AllDigits(name[5..]) && DigitsToNat(name[5..]) == n
  {
    DigitsToNatOfNatToString(n);
    "Team " + NatToString(n)
  }

  /** The reply message of a vote for `teamId`. */
  function VoteMessage(teamId: nat): (message: string)
    ensures |message| > 16 && message[..15] == "Voted for team "
    ensures message[|message| - 1] == '.'
    ensures message[15] != '0' || |message| == 17
    ensures var digits := message[15..|message| - 1];
      AllDigits(digits) && DigitsToNat(digits) == teamId
  {
    DigitsToNatOfNatToString(teamId);
    "Voted for team " + NatToString(teamId) + "."
  }

  /** Ids are positive and below the counter, strictly increasing in row
      order (hence unique), and no tally is negative. */
  ghost predicate WellFormed(t: Table) {
    1 <= t.nextId &&
    (forall k :: 0 <= k < |t.rows| ==>
      1 <= t.rows[k].id < t.nextId && 0 <= t.rows[k].votes) &&
    IdsIncreasing(t.rows)
  }

  ghost predicate IdsIncreasing(rows: seq<Team>) {
    forall j, k :: 0 <= j < k < |rows| ==> rows[j].id < rows[k].id
  }

  /** No two rows share an id: what the PRIMARY KEY guarantees. */
  ghost predicate IdsUnique(rows: seq<Team>) {
    forall j, k :: 0 <= j < k < |rows| ==> rows[j].id != rows[k].id
  }

  /** True when some row has id `teamId`. */
  ghost predicate HasTeam(rows: seq<Team>, teamId: int) {
    exists k :: 0 <= k < |rows| && rows[k].id == teamId
  }

  /** The sum of all tallies. */
  function Tally(rows: seq<Team>): int {
    if rows == [] then 0
    else Tally(rows[..|rows| - 1]) + rows[|rows| - 1].votes
  }

  // ---------------------------------------------------------------------
  // Seeding

  /** The first `count` roster rows inserted with the counter at `firstId`:
      row k gets id firstId + k, name "Team k+1" and no votes. */
  function Roster(firstId: int, count: nat): (rows: seq<Team>)
    ensures |rows| == count
  {
    if count == 0 then []
    else Roster(firstId, count - 1) + [Team(firstId + count - 1, TeamName(count), 0)]
  }

  /** The table after the seeding step: an empty table receives the roster
      and the counter advances past it; any other table is left alone. */
  function Seed(t: Table): (s: Table)
    ensures |t.rows| > 0 ==> s == t
    ensures |t.rows| == 0 ==>
      |s.rows| == RosterSize && s.nextId == t.nextId + RosterSize
  {
    if |t.rows| == 0 then Table(Roster(t.nextId, RosterSize), t.nextId + RosterSize)
    else t
  }

  lemma {:induction false} RosterAt(firstId: int, count: nat, k: nat)
    requires k < count
    ensures Roster(firstId, count)[k] == Team(firstId + k, TeamName(k + 1), 0)
  {
    if k < count - 1 {
      RosterAt(firstId, count - 1, k);
    }
  }

  /** Seeding an empty table inserts exactly ten teams, "Team 1" to
      "Team 10" in that order, each with no votes; their ids are fresh
      values taken in order from the counter, which moves past them. */
  lemma SeedEmpty(t: Table)
    requires t.rows == []
    ensures |Seed(t).rows| == 10
    ensures forall k :: 0 <= k < 10 ==>
      Seed(t).rows[k] == Team(t.nextId + k, TeamName(k + 1), 0)
    ensures Seed(t).nextId == t.nextId + 10
  {
    forall k | 0 <= k < 10
      ensures Seed(t).rows[k] == Team(t.nextId + k, TeamName(k + 1), 0)
    {
      RosterAt(t.nextId, RosterSize, k);
    }
  }

  /** The seeded roster carries no votes in total. */
  lemma {:induction false} RosterTally(firstId: int, count: nat)
    ensures Tally(Roster(firstId, count)) == 0
  {
    if count > 0 {
      RosterTally(firstId, count - 1);
      assert Roster(firstId, count)[..count - 1] == Roster(firstId, count - 1);
    }
  }

  /** On the table of a new database file the seeded ids are 1 to 10. */
  lemma SeedNewDatabase()
    ensures Seed(Table([], 1)).rows ==
      [Team(1, "Team 1", 0), Team(2, "Team 2", 0), Team(3, "Team 3", 0),
       Team(4, "Team 4", 0), Team(5, "Team 5", 0), Team(6, "Team 6", 0),
       Team(7, "Team 7", 0), Team(8, "Team 8", 0), Team(9, "Team 9", 0),
       Team(10, "Team 10", 0)]
  {
    RosterNames();
    assert Roster(1, 1) == [Team(1, "Team 1", 0)];
    assert Roster(1, 2) == Roster(1, 1) + [Team(2, "Team 2", 0)];
    assert Roster(1, 3) == Roster(1, 2) + [Team(3, "Team 3", 0)];
    assert Roster(1, 4) == Roster(1, 3) + [Team(4, "Team 4", 0)];
    assert Roster(1, 5) == Roster(1, 4) + [Team(5, "Team 5", 0)];
    assert Roster(1, 6) == Roster(1, 5) + [Team(6, "Team 6", 0)];
    assert Roster(1, 7) == Roster(1, 6) + [Team(7, "Team 7", 0)];
    assert Roster(1, 8) == Roster(1, 7) + [Team(8, "Team 8", 0)];
    assert Roster(1, 9) == Roster(1, 8) + [Team(9, "Team 9", 0)];
    assert Roster(1, 10) == Roster(1, 9) + [Team(10, "Team 10", 0)];
  }

  lemma RosterNames()
    ensures TeamName(1) == "Team 1" && TeamName(2) == "Team 2" && TeamName(3) == "Team 3"
    ensures TeamName(4) == "Team 4" && TeamName(5) == "Team 5" && TeamName(6) == "Team 6"
    ensures TeamName(7) == "Team 7" && TeamName(8) == "Team 8" && TeamName(9) == "Team 9"
    ensures TeamName(10) == "Team 10"
  {
  }

  /** Seeding leaves a non-empty table, counter included, untouched, so
      seeding twice is the same as seeding once. */
  lemma SeedIdempotent(t: Table)
    ensures |t.rows| > 0 ==> Seed(t) == t
    ensures Seed(Seed(t)) == Seed(t)
  {
  }

  /** The seeded teams have pairwise different names. */
  lemma TeamNameInjective(a: nat, b: nat)
    ensures TeamName(a) == TeamName(b) ==> a == b
  {
  }

  /** Seeding keeps the table well formed: every new id lies at or above
      the old counter, so it differs from every id handed out before. */
  lemma SeedWellFormed(t: Table)
    requires WellFormed(t)
    ensures WellFormed(Seed(t))
    ensures t.nextId <= Seed(t).nextId
    ensures forall k :: |t.rows| <= k < |Seed(t).rows| ==>
      t.nextId <= Seed(t).rows[k].id < Seed(t).nextId
  {
    if t.rows == [] {
      SeedEmpty(t);
    }
  }

  // ---------------------------------------------------------------------
  // Voting

  /** `UPDATE teams SET votes = votes + 1 WHERE id = teamId` on one row. */
  function Bump(team: Team, teamId: int): (r: Team)
    ensures r.id == team.id && r.name == team.name
    ensures r.votes == team.votes + (if team.id == teamId then 1 else 0)
  {
    if team.id == teamId then team.(votes := team.votes + 1) else team
  }

  /** The rows after the vote update, applied to every row in turn. */
  function Voted(rows: seq<Team>, teamId: int): (r: seq<Team>)
    ensures |r| == |rows|
  {
    if rows == [] then []
    else Voted(rows[..|rows| - 1], teamId) + [Bump(rows[|rows| - 1], teamId)]
  }

  /** A vote adds one to the tally of the row whose id matches and changes
      nothing else: every id and name, and every other tally, stay. */
  lemma {:induction false} VotedAt(rows: seq<Team>, teamId: int, k: nat)
    requires k < |rows|
    ensures Voted(rows, teamId)[k] == Bump(rows[k], teamId)
    ensures Voted(rows, teamId)[k].id == rows[k].id
    ensures Voted(rows, teamId)[k].name == rows[k].name
    ensures Voted(rows, teamId)[k].votes ==
      rows[k].votes + (if rows[k].id == teamId then 1 else 0)
  {
    if k < |rows| - 1 {
      VotedAt(rows[..|rows| - 1], teamId, k);
    }
  }

  /** A vote for an id no row has leaves the table as it was. */
  lemma {:induction false} VotedMissing(rows: seq<Team>, teamId: int)
    requires !HasTeam(rows, teamId)
    ensures Voted(rows, teamId) == rows
  {
    forall k | 0 <= k < |rows| ensures Voted(rows, teamId)[k] == rows[k] {
      VotedAt(rows, teamId, k);
    }
  }

  /** With unique ids the total of all tallies rises by exactly one when
      the id exists and stays the same when it does not. */
  lemma {:induction false} VotedTally(rows: seq<Team>, teamId: int)
    requires IdsUnique(rows)
    ensures Tally(Voted(rows, teamId)) ==
      Tally(rows) + (if HasTeam(rows, teamId) then 1 else 0)
  {
    if rows != [] {
      var init, last := rows[..|rows| - 1], rows[|rows| - 1];
      assert rows == init + [last];
      VotedTally(init, teamId);
      assert Voted(rows, teamId)[..|rows| - 1] == Voted(init, teamId);
      if last.id == teamId {
        assert !HasTeam(init, teamId);
        assert HasTeam(rows, teamId);
      } else {
        assert HasTeam(rows, teamId) == HasTeam(init, teamId) by {
          if HasTeam(rows, teamId) {
            var k :| 0 <= k < |rows| && rows[k].id == teamId;
            assert k < |init| && init[k].id == teamId;
          }
        }
      }
    }
  }

  /** A vote keeps the table well formed and never makes a tally negative. */
  lemma VotedWellFormed(t: Table, teamId: int)
    requires WellFormed(t)
    ensures WellFormed(Table(Voted(t.rows, teamId), t.nextId))
  {
    forall k | 0 <= k < |t.rows| {
      VotedAt(t.rows, teamId, k);
    }
  }

  /** The reply names the team voted for: two votes for different ids
      never get the same message. */
  lemma VoteMessageInjective(a: nat, b: nat)
    ensures VoteMessage(a) == VoteMessage(b) ==> a == b
  {
  }

  // ---------------------------------------------------------------------
  // The database

  /** The `teams` table of one database file. */
  class TeamsDb {
    var rows: seq<Team>
    var nextId: int

    function Snapshot(): Table
      reads this
    {
      Table(rows, nextId)
    }

    ghost predicate Valid()
      reads this
    {
      WellFormed(Snapshot())
    }

    /** A new database file: `CREATE TABLE` makes an empty table whose
        AUTOINCREMENT counter will hand out 1 first. */
    constructor ()
      ensures Valid()
      ensures rows == [] && nextId == 1
    {
      rows := [];
      nextId := 1;
    }

    /** `init_db`: when `SELECT COUNT(*)` finds no row, insert "Team 1" to
        "Team 10" with 0 votes, one INSERT at a time. */
    method InitDb()
      requires Valid()
      modifies this
      ensures Valid()
      ensures Snapshot() == Seed(old(Snapshot()))
    {
      if |rows| == 0 {
        for i := 1 to RosterSize + 1
          invariant rows == Roster(old(nextId), i - 1)
          invariant nextId == old(nextId) + i - 1
        {
          rows := rows + [Team(nextId, TeamName(i), 0)];
          nextId := nextId + 1;
        }
      }
      SeedWellFormed(old(Snapshot()));
    }

    /** `get_teams`: every row's id, name and votes, one entry per row, in
        row order; the table is only read. */
    function GetTeams(): (teams: seq<Team>)
      reads this
      ensures |teams| == |rows|
      ensures forall k :: 0 <= k < |teams| ==>
        teams[k].id == rows[k].id && teams[k].name == rows[k].name &&
        teams[k].votes == rows[k].votes
    {
      rows
    }

    /** `vote_team`: add one vote to the row whose id is `teamId`, if any,
        and report success in every case. */
    method Vote(teamId: nat) returns (success: bool, message: string)
      requires Valid()
      modifies this
      ensures Valid()
      ensures rows == Voted(old(rows), teamId) && nextId == old(nextId)
      ensures success && message == VoteMessage(teamId)
    {
      var k := 0;
      while k < |rows|
        invariant k <= |rows| == |old(rows)|
        invariant forall j :: 0 <= j < k ==> rows[j] == Bump(old(rows)[j], teamId)
        invariant forall j :: k <= j < |rows| ==> rows[j] == old(rows)[j]
        invariant nextId == old(nextId)
      {
        if rows[k].id == teamId {
          rows := rows[k := rows[k].(votes := rows[k].votes + 1)];
        }
        k := k + 1;
      }
      forall j | 0 <= j < |rows| ensures rows[j] == Voted(old(rows), teamId)[j] {
        VotedAt(old(rows), teamId, j);
      }
      VotedWellFormed(old(Snapshot()), teamId);
      success := true;
      message := VoteMessage(teamId);
    }
  }
}

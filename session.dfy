/** Usage example, not part of the server: a client of `App` and `Reset`
    that seeds a new database, votes and resets, and asserts what follows
    from the contracts alone. */
module Session {
  import opened App
  import opened Reset

  /** A new database file after two `init_db` calls holds the ten seeded
      teams with no votes, and the counter stands at 11. */
  method SeedTwice() returns (db: TeamsDb)
    ensures db.Valid() && db.rows == Roster(1, RosterSize) && db.nextId == 11
  {
    db := new TeamsDb();
    db.InitDb();
    db.InitDb();
  }

  /** A vote for team 3 on the seeded table, then one for a missing id. */
  method VoteTwice(db: TeamsDb)
    requires db.Valid() && db.rows == Roster(1, RosterSize)
    modifies db
  {
    SeedNewDatabase();
    ghost var seeded := db.rows;
    var ok, msg := db.Vote(3);
    VotedAt(seeded, 3, 2);
    VotedAt(seeded, 3, 3);
    assert ok && db.rows[2] == Team(3, "Team 3", 1) && db.rows[3].votes == 0;
    VotedTally(seeded, 3);
    RosterTally(1, RosterSize);
    assert HasTeam(seeded, 3) by { assert seeded[2].id == 3; }
    assert Tally(db.rows) == 1;

    ghost var voted := db.rows;
    ok, msg := db.Vote(42);
    assert !HasTeam(voted, 42);
    VotedMissing(voted, 42);
    assert ok && msg == VoteMessage(42) && db.rows == voted;
  }

  /** Resetting keeps the roster and its ids and clears every tally. */
  method ResetAfterVotes(db: TeamsDb)
    requires db.Valid() && |db.rows| == 10 && db.rows[2] == Team(3, "Team 3", 1)
    modifies db
  {
    ghost var before := db.rows;
    ResetVotes(db);
    ZeroedAt(before, 2);
    ZeroedTally(before);
    assert db.rows[2] == Team(3, "Team 3", 0) && |db.rows| == 10 && Tally(db.rows) == 0;
  }
}

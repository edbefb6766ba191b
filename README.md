# Team tally table of the voting server

A Dafny model of the state behind the VoteServer backend. The server keeps one
table, `teams`, with rows `(id, name, votes)`. Three server operations and one
maintenance script act on it:

- **seeding** (`init_db`): when the table has no rows, insert "Team 1" to
  "Team 10" with 0 votes, ids taken from the AUTOINCREMENT counter;
- **listing** (`get_teams`): every row's id, name and votes;
- **voting** (`vote_team`): `votes = votes + 1` on the row whose id matches,
  then a reply `{success: true, message: "Voted for team <id>."}` whether or
  not a row matched;
- **reset script**: `votes = 0` on every row.

Files:

- `numerals.dfy`, module `Numerals`: `NatToString`, the decimal rendering used
  in team names and in the reply, with its inverse `DigitsToNat`.
- `app.dfy`, module `App`: the `Team` row, the `Table` value (rows plus
  counter), the functions that say what each statement does to a table
  (`Seed`, `Voted`, `Tally`), lemmas about them, and the class `TeamsDb`, whose
  fields `rows` and `nextId` the methods `InitDb` and `Vote` update in place.
- `reset.dfy`, module `Reset`: `Zeroed`, its lemmas, and `ResetVotes`, which
  runs the script against a `TeamsDb`.
- `session.dfy`, module `Session`: a usage example, not a model of any source
  file. It seeds a new database, votes twice and resets, and asserts what
  follows from the contracts alone.

The rows are kept in rowid order. That is the order of insertion and the
order a plain `SELECT` returns in practice. `nextId` is the id the next
insert receives; a new database file starts it at 1. The object invariant
`Valid()` (`WellFormed` of the table) says ids are positive, below `nextId`
and strictly increasing along the rows, so they are unique. It also says no
tally is negative. Every method keeps it.

Facts about the code that the model keeps:

- Seeding inserts 10 teams (`range(1, 11)` at app.py:25).
- Seeding happens only when `SELECT COUNT(*)` finds no row (app.py:24). The
  comment at app.py:22 speaks of initialising when there are not 10 teams, but
  a table holding between 1 and 9 rows is left as it is.
- The reset script only zeroes tallies. It deletes no row, inserts no row and
  leaves the id counter where it was.
- A vote for an id that no row has changes nothing and still reports success.

## Model

| member | source | states |
|---|---|---|
| `Numerals.NatToString` | app.py:26 | the rendering is a non-empty string of decimal digits, one digit exactly for numbers below 10, with a leading '0' only for 0 |
| `Numerals.DigitsToNatOfNatToString` | app.py:26 | reading the rendered digits back gives the number again |
| `Numerals.NatToStringInjective` | app.py:26 | different numbers render as different strings |
| `App.TeamName` | app.py:26 | the name is "Team " followed by decimal digits with no leading zero (except for 0 itself) that read back as n, which fixes it as "Team " and the decimal rendering of n |
| `App.RosterNames` | app.py:25-26 | the names of the ten seeded teams are the strings "Team 1" to "Team 10" |
| `App.VoteMessage` | app.py:48 | the message is "Voted for team ", then decimal digits with no leading zero (except for 0 itself) that read back as the id, then a final "." |
| `App.Roster` | app.py:25-26 | the first `count` inserted rows number exactly `count`; their contents are fixed by RosterAt |
| `App.Seed` | app.py:23-26 | a non-empty table is returned unchanged; an empty one gets `RosterSize` rows and the counter advances by `RosterSize` |
| `App.Bump` | app.py:45 | one row under the vote update keeps its id and name, and its tally rises by 1 exactly when its id matches |
| `App.Voted` | app.py:45 | the vote update yields as many rows as the input; its meaning is fixed by VotedAt |
| `App.RosterAt` | app.py:25-26 | the k-th inserted roster row has id firstId + k, name "Team k+1" and 0 votes |
| `App.SeedEmpty` | app.py:23-26 | seeding an empty table yields exactly 10 rows, "Team 1" to "Team 10" in order, 0 votes each, ids counter, counter + 1, ... and the counter advances by 10 |
| `App.SeedNewDatabase` | app.py:15-26 | on a new database file the seeded table is exactly (1, "Team 1", 0) to (10, "Team 10", 0) |
| `App.SeedIdempotent` | app.py:23-24 | a non-empty table, counter included, is left unchanged, so seeding twice equals seeding once |
| `App.TeamNameInjective` | app.py:26 | the seeded teams get pairwise different names |
| `App.RosterTally` | app.py:26 | the seeded roster carries 0 votes in total |
| `App.SeedWellFormed` | app.py:17-26 | seeding keeps ids unique, increasing and below the counter; the counter never decreases and every new id is at or above the old counter, so it was never assigned before |
| `App.VotedAt` | app.py:45 | after a vote, each row keeps its position, id and name, and its tally rises by 1 exactly when its id matches |
| `App.VotedMissing` | app.py:45 | a vote for an id no row has leaves the rows unchanged |
| `App.VotedTally` | app.py:45 | with unique ids the sum of all tallies rises by exactly 1 when the id exists and by 0 when it does not |
| `App.VotedWellFormed` | app.py:45 | a vote keeps ids, counter and the non-negativity of every tally |
| `App.VoteMessageInjective` | app.py:48 | the reply message identifies the team id voted for |
| `App.TeamsDb.constructor` | app.py:15-21 | a new table is empty and its counter will hand out id 1 first |
| `App.TeamsDb.InitDb` | app.py:12-28 | the new table and counter are `Seed` of the old ones, and the invariant holds |
| `App.TeamsDb.GetTeams` | app.py:32-38 | one entry per row, in row order, with that row's id, name and votes; the table is only read |
| `App.TeamsDb.Vote` | app.py:42-48 | the new rows are `Voted` of the old rows, the counter is unchanged, the invariant holds, and the reply is success with message "Voted for team <id>." for every id the route accepts (see Left out for ids of 2^63 and more) |
| `Reset.Zeroed` | reset.py:6 | the reset yields as many rows as the input; its meaning is fixed by ZeroedAt |
| `Reset.ZeroedAt` | reset.py:6 | after a reset each row keeps its position, id and name, and its tally is 0 |
| `Reset.ZeroedIdempotent` | reset.py:6 | resetting twice equals resetting once |
| `Reset.ZeroedTally` | reset.py:6 | after a reset the sum of all tallies is 0 |
| `Reset.ZeroedWellFormed` | reset.py:6 | a reset keeps the number of rows, their ids and the counter, so the invariant holds |
| `Reset.ResetVotes` | reset.py:4-8 | the new rows are `Zeroed` of the old rows, the counter is unchanged (an empty table stays empty, nothing is reseeded), and the invariant holds |

## Left out

- HTTP routing, JSON encoding, CORS and starting the server: transport only. The reply is modelled as the pair `(success, message)`.
- Opening, committing and closing the sqlite connection, and the database file path: I/O. The table is in-memory state.
- The `CREATE TABLE IF NOT EXISTS` statement itself: only its effect on a new file (an empty table, counter at 1) is modelled. Reopening an existing file is modelled by keeping the same `TeamsDb`.
- Reset.ResetVotes: the script fails with a "no such table" error when the database file has no `teams` table, for example when it runs before the server has ever started. Every `TeamsDb` has already been through `CREATE TABLE`, so that failure is not modelled.
- Concurrent requests and transaction isolation: each operation is modelled as one atomic step.
- The console message printed by the reset script: output only.
- Integer width: ids and tallies are unbounded integers. The 64-bit limit of sqlite INTEGER, and what sqlite does when `votes + 1` passes it, is not modelled.
- App.TeamsDb.Vote: promises success for every non-negative id. In the server, an id of 2^63 or more makes the sqlite driver raise an overflow error when it binds the parameter (app.py:45), so the request fails with a server error and no reply. The model does not capture that failure.
- Negative team ids: the route accepts only non-negative integers, so `Vote` takes a `nat`.
- Row order: SQL does not promise an order without `ORDER BY`. The model fixes rowid order, which is what sqlite returns for this table.
- `App.TeamsDb.GetTeams` returns the rows themselves rather than JSON objects with keys `id`, `name` and `votes`. The fields are the same.

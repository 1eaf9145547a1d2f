# Volleyball club scoring: a Dafny model

This project models the scoring and lifecycle layer of the club's single-page
application (`script.js`). There are two kinds of match:

- **Classic matches.** Teams enter set results such as `"25:20"` and score 2
  points for every set won. They may also type their points in by hand.
- **Points matches.** Every participant has a grid of per-set points against
  every other participant, and its total is the sum of its own row.

Both kinds end with standings that are sorted stably, highest score first.
A match is finished (marked completed with a time) and can be reopened.
Two input validators sit beside the scoring: the registration form and the
admin's team builder.

The model is functional:

- A match is an immutable `Match` record.
- The list of loaded matches is a `seq<Match>`.
- Every value the page reads from the DOM is an explicit input:
  - a map from team to typed points;
  - an `InputGrid` from `(row, column, set)` to the text of an input, where an
    absent key means the page shows no such input;
  - a confirmation flag standing for `confirm(...)`;
  - an opaque string for the completion time.

Modules, in dependency order:

- `Wrappers`: `Option`, `Result` and a `Check` for first-failure validation.
- `Text`: the parts of JavaScript's string and number handling that the
  scoring relies on.
  - `Number` and `parseInt` on decimal integers.
  - `split`, `join` and `trim`.
  - UTF-16 length.
  - Comparison with a lower-case literal.
- `Records`: matches, team scores, participant points and standings rows.
  Also the "last opponent's input wins" lookup shared by both kinds of match.
- `StableSort`: an insertion sort by descending score.
  - It is proved sorted, a permutation and stable.
  - Any two stable sorts of the same input are proved equal, so the model
    agrees with JavaScript's stable `Array.prototype.sort`.
- `DataManager`: the record `saveMatch` writes (its defaults) and the record
  `saveTeam` writes.
- `ClassicMatch`: `updateSetScore`, `updateTeamPoints`,
  `calculateClassicStandings` and `generateClassicMatch`.
- `PointsMatch`:
  - `recalculateParticipantTotal`, written as a method with the page's own
    nested loops and proved equal to a functional definition;
  - `recalculatePlayerTotals` and `calculatePointsStandings`;
  - `generatePointsMatch`.
- `Lifecycle`: `finishClassicMatch`, `finishPointsMatch`, `finishMatch` and
  `reopenMatch` over the list of loaded matches.
- `Ranking`: the rank shown on the result pages, which is the position in the
  standings, with a fallback to the position in the match's own list.
- `Registration`: the checks of `register()`.
- `TeamCreation`: the checks of `saveNewTeam()` and the team name.

## Behaviour of the code, as modelled

Where a description of the application and the code could differ, the model
follows the code.

- **Set wins.** A set counts as won whenever its left number is larger. No
  two-point margin and no minimum score are required.
- **Malformed sets.** A set string without `':'` or with a non-numeric side
  scores nothing. An empty side reads as 0, because `Number("")` is 0.
- **Set scores replace manual points.** Storing a set score overwrites a
  team's points with the points computed from its sets, so any manual value
  is lost. The opponent argument of `updateSetScore` is never read.
- **Reading a classic match back.**
  - `calculateClassicStandings` takes the points from the typed points inputs
    and the set strings from the set inputs.
  - It does not recompute points from sets.
  - A team with no `scores` entry, no points input and a non-empty set input
    makes it throw (`scores[team].sets` of `undefined`). Rows read before the
    throw keep what was read.
  - The model returns the team that threw. It proves this cannot happen on
    matches built by `generateClassicMatch`.
- **Per-set points.** In a points match, a participant's per-set slot keeps
  the value typed against the last opponent that has an input in that set, not
  a sum. Its total is the sum over all opponents and sets, so the total is in
  general not the sum of the slots.
- **Ranks are positions.** The displayed rank is the position in the stored
  standings plus one. Equal scores get different ranks, and ties keep the
  match's own order.
- **`completedAt` is not persisted.** `saveMatch` builds its record without
  `completedAt`. The completion time of a finished match therefore lives only
  in the page's loaded copy and is not written to the database.
  `DataManager.SaveMatch` states this.
- **Set count of a new points match.** The set count of a new points match is
  `parseInt` of the chosen option. A count that is not a valid array length
  makes `new Array` throw after the participant check. `GeneratePointsMatch`
  reports it as `InvalidSetCount`.

## Model

| member | source | states |
|---|---|---|
| Text.ParseNumber | script.js:1081 | `Number` gives a value exactly for the empty string (0) and an optionally signed decimal numeral (its signed value); any other text is NaN in the model (the `0x`, `0b`, `0o`, `Infinity` and white-space forms `Number` also accepts are listed under Left out) |
| Text.ParseNumberRoundTrip | script.js:1081 | `Number` reads the decimal numeral of any integer back as that integer |
| Text.ParseIntRoundTrip | script.js:1040 | `parseInt(...) \|\| 0` reads an integer numeral back as that integer, whatever non-digit text follows it |
| Text.SplitJoin | script.js:1081 | splitting at `':'` loses nothing: joining the parts with `':'` gives the string back |
| Text.Trim | script.js:481-482 | `trim` yields a slice of its input with no white space at either end and only white space outside it |
| Text.TrimCharacterized | script.js:481-482 | that description determines the trimmed string: any slice with those properties is the result of `trim` |
| Text.TrimPadded | script.js:481-482 | white space added at either end of a string does not change its trim |
| Text.TrimIdempotent | script.js:481-482 | trimming twice is trimming once |
| Text.Utf16Length | script.js:491-499 | the JavaScript length of a string is its number of characters plus the number of characters outside the Basic Multilingual Plane, so between its number of code points and twice that |
| Records.LastInputIsLast | script.js:1119-1128 | the value found for a set is present exactly when some opponent shows an input, and it belongs to an opponent after which none does |
| StableSort.SortByScore | script.js:1134-1139 | the result is sorted by descending score, is a permutation of the input, and keeps the input order among equal scores |
| StableSort.StableSortIsPermutation | script.js:1557-1566 | any stable sort of a sequence is a permutation of it |
| StableSort.StableSortUnique | script.js:1566 | two stable descending sorts of the same input are equal, so the model's order is the order the page's stable sort produces |
| DataManager.SaveMatch | script.js:120-148 | the saved record keeps a non-empty id and otherwise takes the new one; the description is kept; type, participant mode, date, time stamp and set count keep a given non-empty (non-zero) value and otherwise default to "classic", "players", the clock's date, the clock's time and 3; teams, players, participants, scores, points and standings default to empty, and status to active; `completedAt` is never written |
| DataManager.MemberOf | script.js:70-74 | a team member keeps the player's name, keeps a non-empty id and has none otherwise, and keeps a non-empty photo or else gets "images/default-player.png" |
| DataManager.SaveTeam | script.js:62-77 | the team record has the given name, one member per player in order, and a player count equal to the number of players |
| DataManager.ResaveTeamIsIdentity | script.js:62-77 | saving a stored team's members again writes the same team record |
| ClassicMatch.SetWinPoints | script.js:1077-1088 | the points are twice the number of won sets among slots 1..3, hence one of 0, 2, 4, 6 |
| ClassicMatch.UpdateSetScore | script.js:1062-1088 | only the first team's entry changes; it gets the set string (or null for an empty one) in the given slot and points equal to twice its won sets; every other team is unchanged |
| ClassicMatch.UpdateTeamPoints | script.js:1036-1047 | the team's points become `parseInt(value) \|\| 0`; its sets and every other team are unchanged |
| ClassicMatch.SetWonFormatted | script.js:1080-1083 | a set written as `"a:b"` from two integers counts as won exactly when a > b |
| ClassicMatch.SetScoringExample | script.js:1077-1088 | sets 25:20, 20:25 and 25:15 give 4 points |
| ClassicMatch.MalformedSetScoresNothing | script.js:1080 | no set string without `':'` is a won set |
| ClassicMatch.NonNumericSideScoresNothing | script.js:1080-1083 | no set string whose first or second part is not a numeral (NaN for `Number`) is a won set |
| ClassicMatch.SetScoreOverridesManualPoints | script.js:1088 | a set score entered after manual points gives the same match as without the manual points |
| ClassicMatch.SetScoreIgnoresOpponent | script.js:1062-1074 | the opponent argument of `updateSetScore` has no effect |
| ClassicMatch.ManualPointsRoundTrip | script.js:1040-1047 | typing an integer as a team's points stores that integer |
| ClassicMatch.CollectOpponentSets | script.js:1120-1127 | the loop over sets 1..3 against one opponent throws exactly when the team has no entry and some of those inputs is non-empty; otherwise it writes each non-empty input into its set slot and changes no other team |
| ClassicMatch.CollectOpponents | script.js:1119-1129 | the loop over opponents throws exactly when the team has no entry and shows a non-empty set input; otherwise each slot gets the last opponent's non-empty input and no other team changes |
| ClassicMatch.ReadPointsInput | script.js:1109-1116 | with a points input the team's points become `parseInt(value) \|\| 0`, creating an entry with empty sets if there was none; without one nothing changes; other teams are unchanged |
| ClassicMatch.FirstCrash | script.js:1107-1131 | the index of the first team whose row meets the throwing condition, or none exactly when no row does |
| ClassicMatch.CollectInputs | script.js:1107-1131 | reading the rows throws exactly when some row meets the throwing condition, and then at the first such team; the teams read before it (all teams when none throws) get their typed points and their last non-empty set inputs, a team without an entry gets one exactly when it was read and has a points input, and nothing else changes |
| ClassicMatch.ClassicStandings | script.js:1133-1139 | one row per team with its stored points (0 when missing), a stable sort by descending points of the rows in team order |
| ClassicMatch.CalculateClassicStandings | script.js:1103-1166 | it throws exactly when some team's row does, at the first such team, and then the teams read before it keep what was read, every other entry is unchanged and the standings are untouched; otherwise the rows are read back: exactly the teams that had an entry or have a points input hold one, each team's entry is its typed points and its last non-empty set inputs, entries of names that are not teams are kept, and the standings are those of the updated scores; nothing but scores and standings changes |
| ClassicMatch.CoveredNeverCrashes | script.js:1107-1131 | when every team has a scores entry, reading the inputs back never throws |
| ClassicMatch.ScoreEntryKeepsCover | script.js:1036-1074 | entering a set score or points keeps every team covered by a scores entry |
| ClassicMatch.GenerateClassicMatch | script.js:1211-1245 | refused exactly when fewer than two teams are selected; otherwise an active classic match of those teams, each with zero points and three empty sets, with the trimmed or fallback description, the given date and time stamp, empty standings, no id, and players, participants, participants type, points and sets left undefined |
| ClassicMatch.GeneratedClassicCovered | script.js:1236-1245 | a generated classic match, once saved, has a scores entry for every team |
| PointsMatch.Fill | script.js:1509 | `new Array(n).fill(0)`: exactly the slots 0..n-1, all zero |
| PointsMatch.AddRow | script.js:1502-1516 | the inner loop adds the row's cells against one opponent to the total and writes each shown cell into its set slot |
| PointsMatch.RecalculateParticipantTotal | script.js:1493-1531 | the total is the sum of the participant's own cells against every other participant over every set; the entry stores that total and, per set, the last opponent's value |
| PointsMatch.OnlyOwnRowCounts | script.js:1503-1507 | cells typed against the participant by its opponents never affect its entry |
| PointsMatch.RecalculateStable | script.js:1493-1531 | recalculating one participant changes no participant's recalculated entry |
| PointsMatch.RecalculateIdempotent | script.js:1493-1531 | recalculating a participant twice is recalculating it once |
| PointsMatch.RecalculateAll | script.js:1539-1541 | each listed participant ends with its recalculated entry; other entries are unchanged; nothing but points changes |
| PointsMatch.RecalculatePlayerTotals | script.js:1535-1545 | every participant has its recalculated entry and entries of other ids are kept |
| PointsMatch.RecalculatePlayerTotalsIdempotent | script.js:1598-1601 | recalculating all participants a second time changes nothing |
| PointsMatch.CalculatePointsStandings | script.js:1547-1592 | every participant is recalculated and the standings are the stable descending sort of the participants with the sums of their own rows |
| PointsMatch.PointsExample | script.js:1497-1524 | with two sets, 3 and 5 against X and 2 and 1 against Y give a total of 11 and set slots 2 and 1 |
| PointsMatch.ParticipantsOf | script.js:1617-1635 | one participant per checked box, in order: a team box's value as id and name, a player box's value as id and its data name as name |
| PointsMatch.FreshPoints | script.js:1665-1672 | every participant id gets a zero total and zero in every set |
| PointsMatch.GeneratePointsMatch | script.js:1614-1672 | refused with fewer than two participants, then when the set count is not a valid array length; otherwise an active points match of the checked participants in order, their names as teams, zeroed points, no scores, empty standings, the given date and time stamp, and the trimmed description or the dated fallback when it is empty |
| PointsMatch.BlankStandings | script.js:1547-1592 | while every input is empty, the standings list every participant with 0 points in participant order |
| PointsMatch.BlankTotals | script.js:1493-1531 | while every input is empty, every participant's recalculated total is 0 |
| PointsMatch.GeneratedPointsStartLevel | script.js:1547-1592 | a generated points match, once saved, ranks every participant with 0 points in the order checked while every input is empty |
| Lifecycle.Find | script.js:1184 | the index of the first loaded match with the id, or none when no match has it |
| Lifecycle.FinishClassicMatch | script.js:1181-1206 | unless declined or not found, the match's inputs are read back and it holds the scores read; if that throws it keeps what was read before the throw and is not completed; otherwise its standings are computed and it is completed at the given time; no other match and no other field changes |
| Lifecycle.FinishedPoints | script.js:1594-1606 | a finished points match has every participant recalculated, the standings of its inputs, status completed and the completion time; nothing else changes |
| Lifecycle.FinishedPointsTwice | script.js:1594-1606 | finishing a points match again on the same inputs changes nothing |
| Lifecycle.FinishPointsMatch | script.js:1594-1610 | unless declined or not found, the match is finished as above and no other match changes |
| Lifecycle.FinishPointsTwice | script.js:1594-1610 | finishing the same points match twice on the same inputs leaves the list as finishing it once |
| Lifecycle.FinishMatch | script.js:2410-2420 | an unknown id changes nothing; type "points" goes to the points finisher and any other type to the classic one |
| Lifecycle.ReopenMatch | script.js:2393-2408 | the match becomes active and loses its completion time; nothing else about it or any other match changes |
| Lifecycle.ReopenKeepsPlace | script.js:2393-2398 | a reopened match is found where it was |
| Lifecycle.ReopenIdempotent | script.js:2393-2398 | reopening twice is reopening once |
| Lifecycle.FinishThenReopenClassic | script.js:1181-1190 | finishing an active classic match and reopening it leaves only the read-back scores and the new standings |
| Ranking.FindName | script.js:1845 | the first standings row with the name, or -1 exactly when there is none |
| Ranking.FindId | script.js:1977 | the first standings row that is a points row with the id, or -1 exactly when there is none |
| Ranking.IndexOf | script.js:1845 | the first position of the team, or -1 exactly when it is absent |
| Ranking.ClassicRank | script.js:1845 | the rank is the first position of the team in the standings; if it is absent there, its first position in the team list; 0 exactly when it is absent from both |
| Ranking.PointsRank | script.js:1977 | the rank is the first standings position with the participant's id, or else the participant's own position in the list |
| Ranking.ClassicRankIsPlace | script.js:1845 | with distinct team names, the team in place k of the computed standings is shown rank k + 1 |
| Ranking.PointsRankIsPlace | script.js:1977 | with distinct participant ids, the participant in place k of the computed standings is shown rank k + 1 |
| Registration.Register | script.js:480-504 | accepted exactly when both trimmed fields are non-empty, the login has at least 3 and the password at least 6 UTF-16 units, and the login is not "admin" in any case; the first failing check is the one reported; the account email is the login with "@volleyball.ru" |
| Registration.ReservedRefused | script.js:501-504 | a login equal to "admin" up to case is refused as reserved once the password is long enough |
| Registration.ShortUsernameFirst | script.js:486-494 | a one-character login is reported as too short with any non-empty password |
| Registration.PaddingIgnored | script.js:481-482 | white space before and after each field, chosen independently, does not change the outcome |
| TeamCreation.SelectedPlayers | script.js:841-843 | keeps the stored players in their order, each player with a selected name as often as it is stored and no other |
| TeamCreation.SelectedPlayersUnique | script.js:841-843 | that description determines the filter: any order-keeping selection of those players is its result |
| TeamCreation.SaveNewTeam | script.js:823-856 | refused in order when not admin, with fewer than two names, with fewer than two matching stored players, or when the name exists; otherwise a team named by the selected names joined with " + ", holding one member per matching stored player, in stored order, at least two, with the player count equal to their number |
| TeamCreation.SavedMembers | script.js:70-77 | the members written are exactly the members of the given players |
| TeamCreation.TeamNameInjective | script.js:850-856 | when no name contains '+', two selections with the same team name are the same selection |

## Left out

- Firebase reads, writes, authentication and the seeding of default players
  are foreign SDK calls. Persistence is modelled only as the record
  `saveMatch` or `saveTeam` writes. A failed write is not modelled.
- DOM rendering and event wiring are not modelled: HTML building, rank
  colours, checkbox styling and alerts. `confirm(...)` is a boolean input, and
  the DOM reads are explicit maps and grids.
- The order of asynchronous work is not modelled. This covers un-awaited
  `saveMatch` calls and races between two admins.
- `new Date()`, `toLocaleString()` and `Date.now()` are opaque input values.
- `Text.ParseNumber` (`Number`) and `parseInt` are modelled only on
  optional-sign decimal integers. White space around the number, decimals, exponents, hexadecimal (`0x`),
  binary (`0b`) and octal (`0o`) prefixes and floating point are left out.
  Such inputs read as NaN in `Number`, and `parseInt` keeps its leading
  digits. So `Number("0b11")` is 3 and `"0b11:0"` is a won set on the page,
  but the model reads it as NaN and the set is not won.
- `Number("Infinity")` is a number in JavaScript, so `"Infinity:5"` is a won
  set on the page. In the model it is NaN and the set is not won.
- Integers are unbounded in the model. JavaScript rounds integers above 2^53,
  so `"9007199254740993:9007199254740992"` is not won on the page (both sides
  round to the same number) but is won in the model.
- Matches stored in the legacy shape are left out: no `participants` field
  (so the code falls back to `players`), or no `points`, `scores` or `sets`
  field. Every record `saveMatch` writes has these fields.
- The `players` list inside each participant, and the `name` and `type` kept
  in each points entry, are shown on the page only. They are left out.
- A points entry whose `sets` array is missing cannot be expressed: the
  per-set values are always a map.
- `updatedAt`, `createdAt` and `createdBy` are left out.
- `Ranking.PointsRank`: `participants.indexOf(participant)` compares objects
  by identity. It is modelled as the participant's own position in the list,
  which is what identity comparison gives for objects taken from that list.
- Finishing and reopening a match whose id is not loaded change nothing, and
  the model shows this. The value `0` that `recalculateParticipantTotal`
  returns in that case is not modelled.
- `updateSetScore` and `updateTeamPoints` are modelled on the match itself.
  Their lookup in the loaded list, and the early return when the id is not
  there, are left out; the lookup is the `Find` of `Lifecycle`.
- `GeneratePointsMatch` describes the object saved. The page keeps that same
  object in memory, so a set count of 0 would stay 0 there while `saveMatch`
  stores 3. The set count comes from a list offering 1 to 5, so this cannot
  happen from the page.
- The header scroll logic and hash routing are user-interface behaviour.

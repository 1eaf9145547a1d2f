/** The records the site keeps in its `matches` collection, as plain values,
    and the form inputs its scoring functions read from the page. */
module Records {
  import opened Wrappers

  /** `match.status`: `'active'` while scores are being entered,
      `'completed'` once the match is finished. */
  datatype Status = Active | Completed

  /** A selected player or team of a points match: `{id, name, type}`. */
  datatype Participant = Participant(id: string, name: string, kind: string)

  /** `scores[team]` of a classic match: the team's points and its set
      strings `"a:b"` keyed by set number; a stored `null` is `None`, and a
      set number that is not a key reads as `undefined`. */
  datatype TeamScore = TeamScore(points: int, sets: map<int, Option<string>>)

  /** `points[participantId]` of a points match: the total and the value
      stored for each set index (a JavaScript array, whose missing indices
      are holes). */
  datatype ParticipantPoints = ParticipantPoints(total: int, perSet: map<int, int>)

  /** One row of `match.standings`. */
  datatype Standing =
    | ClassicRow(name: string, points: int)
    | PointsRow(id: string, name: string, total: int)

  /** The number a standings table is sorted by. */
  function Score(row: Standing): int {
    match row
    case ClassicRow(_, points) => points
    case PointsRow(_, _, total) => total
  }

  const ClassicType: string := "classic"
  const PointsType: string := "points"
  const PlayersMode: string := "players"

  /** A match as the `matches` collection holds it, with the defaults of
      `saveMatch` filled in. `completedAt` lives only in the copy the page
      keeps in memory: the record `saveMatch` writes has no such field. */
  datatype Match = Match(
    id: Option<string>,
    description: Option<string>,
    matchType: string,
    teams: seq<string>,
    players: seq<Participant>,
    participants: seq<Participant>,
    participantsType: string,
    scores: map<string, TeamScore>,
    points: map<string, ParticipantPoints>,
    sets: nat,
    status: Status,
    date: string,
    timestamp: nat,
    standings: seq<Standing>,
    completedAt: Option<string>)

  /** The address of one score input on the page: the row's team or
      participant, the column's opponent, and the set. */
  datatype CellKey = CellKey(row: string, column: string, setNumber: int)

  /** The values of the score inputs the page currently shows; a key that is
      absent is an input `document.getElementById` does not find. */
  type InputGrid = map<CellKey, string>

  /** Whether the page shows an input for row `row` against `column` in
      `setNumber`; a row is never scored against itself. */
  predicate HasInput(grid: InputGrid, row: string, column: string, setNumber: int) {
    column != row && CellKey(row, column, setNumber) in grid
  }

  /** The value of the input of the LAST column (in `columns` order) that has
      an input for `row` in `setNumber`: scanning the opponents in order and
      assigning each found value to the same slot leaves this one. */
  function LastInput(grid: InputGrid, row: string, columns: seq<string>, setNumber: int): Option<string> {
    if columns == [] then None
    else
      var later := LastInput(grid, row, columns[1..], setNumber);
      if later.Some? then later
      else if HasInput(grid, row, columns[0], setNumber) then Some(grid[CellKey(row, columns[0], setNumber)])
      else None
  }

  /** `LastInput` finds a value exactly when some column has an input, and
      the value it finds is that of a column after which no column has
      one. */
  lemma {:induction false} LastInputIsLast(grid: InputGrid, row: string, columns: seq<string>, setNumber: int)
    ensures var r := LastInput(grid, row, columns, setNumber);
      && (r.Some? <==> exists j :: 0 <= j < |columns| && HasInput(grid, row, columns[j], setNumber))
      && (r.Some? ==>
            exists j :: && 0 <= j < |columns| && HasInput(grid, row, columns[j], setNumber)
                        && r.value == grid[CellKey(row, columns[j], setNumber)]
                        && forall k :: j < k < |columns| ==> !HasInput(grid, row, columns[k], setNumber))
  {
    if columns != [] {
      var rest := columns[1..];
      LastInputIsLast(grid, row, rest, setNumber);
      assert forall j :: 0 < j < |columns| ==> columns[j] == rest[j - 1];
      var later := LastInput(grid, row, rest, setNumber);
      if later.Some? {
        var j :| && 0 <= j < |rest| && HasInput(grid, row, rest[j], setNumber)
                 && later.value == grid[CellKey(row, rest[j], setNumber)]
                 && forall k :: j < k < |rest| ==> !HasInput(grid, row, rest[k], setNumber);
        assert HasInput(grid, row, columns[j + 1], setNumber);
      }
    }
  }

  /** Map union is associative: later maps win either way. */
  lemma UnionAssoc<K, V>(a: map<K, V>, b: map<K, V>, c: map<K, V>)
    ensures (a + b) + c == a + (b + c)
  {
  }
}

/** Points matches: every participant's total is the sum of the points it
    was given against each other participant in each set. The grid of
    inputs is not symmetric: the cell of P against Q and the cell of Q
    against P are independent inputs. */
module PointsMatch {
  import opened Wrappers
  import opened Text
  import opened Records
  import opened DataManager
  import StableSort

  /** The ids of the participants, in order: the opponents
      `recalculateParticipantTotal` scans. */
  function Ids(participants: seq<Participant>): (ids: seq<string>)
    ensures |ids| == |participants|
    ensures forall i :: 0 <= i < |ids| ==> ids[i] == participants[i].id
  {
    seq(|participants|, i requires 0 <= i < |participants| => participants[i].id)
  }

  /** `parseInt(input.value) || 0` for the input of `row` against `column`
      in set `i`, or 0 when the page shows no such input. */
  function CellPoints(grid: InputGrid, row: string, column: string, i: int): int {
    var key := CellKey(row, column, i);
    if key in grid then ParseIntOrZero(grid[key]) else 0
  }

  /** Points of `row` against `column` over sets 0..n-1. */
  function RowSum(grid: InputGrid, row: string, column: string, n: int): int
    decreases n
  {
    if n <= 0 then 0 else RowSum(grid, row, column, n - 1) + CellPoints(grid, row, column, n - 1)
  }

  /** Points of `row` against every column other than itself, over sets
      0..n-1: the total a participant should have. */
  function OpponentsSum(grid: InputGrid, row: string, columns: seq<string>, n: int): int {
    if columns == [] then 0
    else
      var last := columns[|columns| - 1];
      OpponentsSum(grid, row, columns[..|columns| - 1], n) + (if last != row then RowSum(grid, row, last, n) else 0)
  }

  /** `new Array(n).fill(0)`. */
  function Fill(n: nat): (r: map<int, int>)
    ensures forall i :: i in r <==> 0 <= i < n
    ensures forall i :: i in r ==> r[i] == 0
  {
    if n == 0 then map[] else Fill(n - 1)[n - 1 := 0]
  }

  /** `points[p]`, or the fresh entry the page creates when it is missing. */
  function BaseEntry(m: Match, p: string): ParticipantPoints {
    if p in m.points then m.points[p] else ParticipantPoints(0, Fill(m.sets))
  }

  /** The per-set values written for `row`: in each set 0..n-1, the value of
      the last column whose input the page shows. */
  function LastValues(grid: InputGrid, row: string, columns: seq<string>, n: int): map<int, int> {
    map i | 0 <= i < n && LastInput(grid, row, columns, i).Some? :: ParseIntOrZero(LastInput(grid, row, columns, i).value)
  }

  /** The entry `recalculateParticipantTotal` leaves for `p`: the sum over
      every other participant and every set as total, and in each set slot
      the last opponent's value, not a sum. */
  function RecalculatedEntry(m: Match, grid: InputGrid, p: string): ParticipantPoints {
    var columns := Ids(m.participants);
    ParticipantPoints(OpponentsSum(grid, p, columns, m.sets), BaseEntry(m, p).perSet + LastValues(grid, p, columns, m.sets))
  }

  /** The match after recalculating `p`. */
  function Recalculate(m: Match, grid: InputGrid, p: string): Match {
    m.(points := m.points[p := RecalculatedEntry(m, grid, p)])
  }

  /** Values written for `row` against one `column` in sets 0..i-1. */
  function RowValues(grid: InputGrid, row: string, column: string, i: int): map<int, int> {
    map j | 0 <= j < i && CellKey(row, column, j) in grid :: ParseIntOrZero(grid[CellKey(row, column, j)])
  }

  lemma RowValuesStep(grid: InputGrid, row: string, column: string, i: int)
    requires 0 <= i
    ensures RowValues(grid, row, column, i + 1)
            == if CellKey(row, column, i) in grid
               then RowValues(grid, row, column, i)[i := ParseIntOrZero(grid[CellKey(row, column, i)])]
               else RowValues(grid, row, column, i)
  {
  }

  lemma UnionUpdate(a: map<int, int>, b: map<int, int>, k: int, v: int)
    ensures (a + b)[k := v] == a + b[k := v]
  {
  }

  lemma {:induction false} LastInputSnoc(grid: InputGrid, row: string, columns: seq<string>, q: string, i: int)
    ensures LastInput(grid, row, columns + [q], i)
            == if HasInput(grid, row, q, i) then Some(grid[CellKey(row, q, i)]) else LastInput(grid, row, columns, i)
  {
    if columns != [] {
      assert (columns + [q])[1..] == columns[1..] + [q];
      LastInputSnoc(grid, row, columns[1..], q, i);
    } else {
      assert ([q])[1..] == [];
    }
  }

  lemma LastValuesSnoc(grid: InputGrid, row: string, columns: seq<string>, q: string, n: int)
    requires q != row
    ensures LastValues(grid, row, columns + [q], n) == LastValues(grid, row, columns, n) + RowValues(grid, row, q, n)
  {
    forall i | 0 <= i < n {
      LastInputSnoc(grid, row, columns, q, i);
    }
  }

  lemma LastValuesSelf(grid: InputGrid, row: string, columns: seq<string>, n: int)
    ensures LastValues(grid, row, columns + [row], n) == LastValues(grid, row, columns, n)
  {
    forall i | 0 <= i < n {
      LastInputSnoc(grid, row, columns, row, i);
    }
  }

  /** The inner loop of `recalculateParticipantTotal`: adds `row`'s cells
      against `column` to the running total and writes them into their set
      slots. */
  method AddRow(grid: InputGrid, row: string, column: string, sets: nat, total0: int, perSet0: map<int, int>)
    returns (total: int, perSet: map<int, int>)
    ensures total == total0 + RowSum(grid, row, column, sets)
    ensures perSet == perSet0 + RowValues(grid, row, column, sets)
  {
    total, perSet := total0, perSet0;
    var i := 0;
    while i < sets
      invariant 0 <= i <= sets
      invariant total == total0 + RowSum(grid, row, column, i)
      invariant perSet == perSet0 + RowValues(grid, row, column, i)
    {
      var key := CellKey(row, column, i);
      RowValuesStep(grid, row, column, i);
      if key in grid {
        var value := ParseIntOrZero(grid[key]);
        total := total + value;
        UnionUpdate(perSet0, RowValues(grid, row, column, i), i, value);
        perSet := perSet[i := value];
      }
      i := i + 1;
    }
  }

  /** `recalculateParticipantTotal(matchId, participantId)`, loop for loop:
      the returned total is the sum of `p`'s cells against every other
      participant over every set (the cells against `p` play no part), and
      `p`'s entry gets that total and, per set, the last opponent's value. */
  method RecalculateParticipantTotal(m: Match, grid: InputGrid, p: string) returns (r: Match, total: int)
    ensures total == OpponentsSum(grid, p, Ids(m.participants), m.sets)
    ensures r == Recalculate(m, grid, p)
    ensures r.points[p].total == total
  {
    var columns := Ids(m.participants);
    var base := BaseEntry(m, p).perSet;
    total := 0;
    var perSet := base;
    var k := 0;
    while k < |columns|
      invariant 0 <= k <= |columns|
      invariant total == OpponentsSum(grid, p, columns[..k], m.sets)
      invariant perSet == base + LastValues(grid, p, columns[..k], m.sets)
    {
      var q := columns[k];
      assert columns[..k + 1] == columns[..k] + [q];
      assert columns[..k + 1][..k] == columns[..k];
      if q != p {
        total, perSet := AddRow(grid, p, q, m.sets, total, perSet);
        LastValuesSnoc(grid, p, columns[..k], q, m.sets);
        UnionAssoc(base, LastValues(grid, p, columns[..k], m.sets), RowValues(grid, p, q, m.sets));
      } else {
        LastValuesSelf(grid, p, columns[..k], m.sets);
      }
      k := k + 1;
    }
    assert columns[..|columns|] == columns;
    r := m.(points := m.points[p := ParticipantPoints(total, perSet)]);
  }

  /** Two grids that show the same inputs in `row`'s row. */
  ghost predicate SameRow(g1: InputGrid, g2: InputGrid, row: string) {
    forall column, i ::
      && (CellKey(row, column, i) in g1 <==> CellKey(row, column, i) in g2)
      && (CellKey(row, column, i) in g1 ==> g1[CellKey(row, column, i)] == g2[CellKey(row, column, i)])
  }

  lemma {:induction false} LastInputSameRow(g1: InputGrid, g2: InputGrid, row: string, columns: seq<string>, i: int)
    requires SameRow(g1, g2, row)
    ensures LastInput(g1, row, columns, i) == LastInput(g2, row, columns, i)
  {
    if columns != [] {
      LastInputSameRow(g1, g2, row, columns[1..], i);
      assert CellKey(row, columns[0], i) in g1 <==> CellKey(row, columns[0], i) in g2;
    }
  }

  lemma {:induction false} RowSumSameRow(g1: InputGrid, g2: InputGrid, row: string, column: string, n: int)
    requires SameRow(g1, g2, row)
    ensures RowSum(g1, row, column, n) == RowSum(g2, row, column, n)
    decreases n
  {
    if n > 0 {
      RowSumSameRow(g1, g2, row, column, n - 1);
      assert CellKey(row, column, n - 1) in g1 <==> CellKey(row, column, n - 1) in g2;
    }
  }

  lemma {:induction false} OpponentsSumSameRow(g1: InputGrid, g2: InputGrid, row: string, columns: seq<string>, n: int)
    requires SameRow(g1, g2, row)
    ensures OpponentsSum(g1, row, columns, n) == OpponentsSum(g2, row, columns, n)
  {
    if columns != [] {
      OpponentsSumSameRow(g1, g2, row, columns[..|columns| - 1], n);
      RowSumSameRow(g1, g2, row, columns[|columns| - 1], n);
    }
  }

  /** Only `p`'s own row of inputs decides its entry: what its opponents
      were given against it plays no part. */
  lemma OnlyOwnRowCounts(m: Match, g1: InputGrid, g2: InputGrid, p: string)
    requires SameRow(g1, g2, p)
    ensures RecalculatedEntry(m, g1, p) == RecalculatedEntry(m, g2, p)
  {
    var columns := Ids(m.participants);
    OpponentsSumSameRow(g1, g2, p, columns, m.sets);
    forall i | 0 <= i < m.sets {
      LastInputSameRow(g1, g2, p, columns, i);
    }
  }

  /** An entry that already holds the recalculated values is left as it is:
      the total is recomputed from scratch and every set slot is
      overwritten with the same value. */
  lemma RecalculationAbsorbs(m: Match, m': Match, grid: InputGrid, p: string)
    requires m'.participants == m.participants && m'.sets == m.sets
    requires p in m'.points && m'.points[p] == RecalculatedEntry(m, grid, p)
    ensures RecalculatedEntry(m', grid, p) == RecalculatedEntry(m, grid, p)
  {
    var lv := LastValues(grid, p, Ids(m.participants), m.sets);
    UnionAssoc(BaseEntry(m, p).perSet, lv, lv);
    assert lv + lv == lv;
  }

  /** Recalculating one participant changes no participant's recalculated
      entry, its own included. */
  lemma RecalculateStable(m: Match, grid: InputGrid, p: string, t: string)
    ensures RecalculatedEntry(Recalculate(m, grid, p), grid, t) == RecalculatedEntry(m, grid, t)
  {
    if t == p {
      RecalculationAbsorbs(m, Recalculate(m, grid, p), grid, p);
    }
  }

  /** `recalculateParticipantTotal` is idempotent. */
  lemma RecalculateIdempotent(m: Match, grid: InputGrid, p: string)
    ensures Recalculate(Recalculate(m, grid, p), grid, p) == Recalculate(m, grid, p)
  {
    RecalculateStable(m, grid, p, p);
  }

  /** `recalculateParticipantTotal` for each of `todo` in turn: every one of
      them ends with its recalculated entry, nobody else's entry changes,
      and nothing but the points changes. */
  function RecalculateAll(m: Match, grid: InputGrid, todo: seq<string>): (r: Match)
    ensures r == m.(points := r.points)
    ensures forall t :: t in todo ==> t in r.points && r.points[t] == RecalculatedEntry(m, grid, t)
    ensures forall t :: t !in todo ==> (t in r.points <==> t in m.points)
    ensures forall t :: t !in todo && t in m.points ==> r.points[t] == m.points[t]
    decreases |todo|
  {
    if todo == [] then m
    else
      var next := Recalculate(m, grid, todo[0]);
      var r := RecalculateAll(next, grid, todo[1..]);
      assert forall t :: t in todo ==> t == todo[0] || t in todo[1..];
      assert forall t :: RecalculatedEntry(next, grid, t) == RecalculatedEntry(m, grid, t) by {
        forall t {
          RecalculateStable(m, grid, todo[0], t);
        }
      }
      r
  }

  /** The participant ids of the match. */
  function ParticipantIds(m: Match): seq<string> {
    Ids(m.participants)
  }

  /** `recalculatePlayerTotals(matchId)`: every participant recalculated;
      entries of ids that are not participants are kept. */
  function RecalculatePlayerTotals(m: Match, grid: InputGrid): (r: Match)
    ensures r == m.(points := r.points)
    ensures forall t :: t in ParticipantIds(m) ==> t in r.points && r.points[t] == RecalculatedEntry(m, grid, t)
    ensures forall t :: t !in ParticipantIds(m) ==> (t in r.points <==> t in m.points)
    ensures forall t :: t !in ParticipantIds(m) && t in m.points ==> r.points[t] == m.points[t]
  {
    RecalculateAll(m, grid, ParticipantIds(m))
  }

  /** Recalculating every participant a second time changes nothing, so
      finishing a match (which recalculates twice) stores the same points
      as recalculating once. */
  lemma RecalculatePlayerTotalsIdempotent(m: Match, grid: InputGrid)
    ensures RecalculatePlayerTotals(RecalculatePlayerTotals(m, grid), grid) == RecalculatePlayerTotals(m, grid)
  {
    var ids := ParticipantIds(m);
    var once := RecalculateAll(m, grid, ids);
    var twice := RecalculateAll(once, grid, ids);
    forall t | t in ids
      ensures twice.points[t] == once.points[t]
    {
      RecalculationAbsorbs(m, once, grid, t);
    }
    assert twice.points.Keys == once.points.Keys;
    assert twice.points == once.points;
  }

  /** `match.points[id] || { total: 0 }` read for the standings. */
  function TotalOf(points: map<string, ParticipantPoints>, id: string): int {
    if id in points then points[id].total else 0
  }

  /** The rows `calculatePointsStandings` builds, in participant order. */
  function PointsRows(m: Match): (rows: seq<Standing>)
    ensures |rows| == |m.participants|
  {
    seq(|m.participants|, i requires 0 <= i < |m.participants| =>
      PointsRow(m.participants[i].id, m.participants[i].name, TotalOf(m.points, m.participants[i].id)))
  }

  /** The rows the standings should hold, computed from the inputs alone:
      each participant with the sum of its own row of inputs. */
  function ExpectedRows(m: Match, grid: InputGrid): (rows: seq<Standing>)
    ensures |rows| == |m.participants|
  {
    var ids := Ids(m.participants);
    seq(|m.participants|, i requires 0 <= i < |m.participants| =>
      PointsRow(m.participants[i].id, m.participants[i].name, OpponentsSum(grid, m.participants[i].id, ids, m.sets)))
  }

  /** `calculatePointsStandings(matchId)`: recalculates every participant,
      then stores the participants ordered by total, highest first, ties in
      participant order. The standings are those of the inputs themselves,
      whatever totals were stored before. */
  function CalculatePointsStandings(m: Match, grid: InputGrid): (r: Match)
    ensures r == m.(points := r.points, standings := r.standings)
    ensures forall t :: t in ParticipantIds(m) ==> t in r.points && r.points[t] == RecalculatedEntry(m, grid, t)
    ensures forall t :: t !in ParticipantIds(m) ==> (t in r.points <==> t in m.points)
    ensures forall t :: t !in ParticipantIds(m) && t in m.points ==> r.points[t] == m.points[t]
    ensures |r.standings| == |m.participants|
    ensures StableSort.SortedDesc(r.standings, Score)
    ensures StableSort.IsStableSortOf(ExpectedRows(m, grid), r.standings, Score)
  {
    var recalculated := RecalculatePlayerTotals(m, grid);
    var rows := PointsRows(recalculated);
    assert rows == ExpectedRows(m, grid) by {
      forall i | 0 <= i < |rows|
        ensures rows[i] == ExpectedRows(m, grid)[i]
      {
        assert m.participants[i] in m.participants;
      }
    }
    recalculated.(standings := StableSort.SortByScore(rows, Score))
  }

  lemma ExampleCells()
    ensures CellPoints(ExampleGrid(), "P", "X", 0) == 3 && CellPoints(ExampleGrid(), "P", "X", 1) == 5
    ensures CellPoints(ExampleGrid(), "P", "Y", 0) == 2 && CellPoints(ExampleGrid(), "P", "Y", 1) == 1
  {
    assert "3" == IntToString(3) && "5" == IntToString(5) && "2" == IntToString(2) && "1" == IntToString(1);
    ParseIntRoundTrip(3, []);
    ParseIntRoundTrip(5, []);
    ParseIntRoundTrip(2, []);
    ParseIntRoundTrip(1, []);
  }

  lemma ExampleTotal()
    ensures OpponentsSum(ExampleGrid(), "P", ["P", "X", "Y"], 2) == 11
  {
    var g := ExampleGrid();
    ExampleCells();
    assert RowSum(g, "P", "X", 2) == 8;
    assert RowSum(g, "P", "Y", 2) == 3;
    var ids := ["P", "X", "Y"];
    assert ids[..2] == ["P", "X"] && ids[..2][..1] == ["P"] && ids[..2][..1][..0] == [];
    assert OpponentsSum(g, "P", ["P"], 2) == 0;
    assert OpponentsSum(g, "P", ["P", "X"], 2) == 8;
  }

  lemma ExampleSets()
    ensures LastValues(ExampleGrid(), "P", ["P", "X", "Y"], 2) == map[0 := 2, 1 := 1]
  {
    var g := ExampleGrid();
    ExampleCells();
    var ids := ["P", "X", "Y"];
    assert ids[1..] == ["X", "Y"] && ids[1..][1..] == ["Y"] && ids[1..][1..][1..] == [];
    assert LastInput(g, "P", ids, 0) == Some("2");
    assert LastInput(g, "P", ids, 1) == Some("1");
  }

  /** The worked example of a two-set match between P, X and Y: P scored
      3 and 5 against X and 2 and 1 against Y, so its total is 11 and its
      set slots hold the values against Y, the last opponent. */
  lemma PointsExample(m: Match)
    requires m.sets == 2 && m.points == map[]
    requires m.participants == [Participant("P", "P", "player"), Participant("X", "X", "player"), Participant("Y", "Y", "player")]
    ensures RecalculatedEntry(m, ExampleGrid(), "P") == ParticipantPoints(11, map[0 := 2, 1 := 1])
  {
    assert Ids(m.participants) == ["P", "X", "Y"];
    ExampleTotal();
    ExampleSets();
    assert Fill(2) == map[0 := 0, 1 := 0];
  }

  /** The inputs of the example: P's row only. */
  function ExampleGrid(): InputGrid {
    map[CellKey("P", "X", 0) := "3", CellKey("P", "X", 1) := "5",
        CellKey("P", "Y", 0) := "2", CellKey("P", "Y", 1) := "1"]
  }

  /** A checked participant box: its value (the id) and its display name
      (the `data-name` of a player box; team boxes carry none). */
  datatype CheckedBox = CheckedBox(value: string, displayName: string)

  datatype GenerateError = TooFewParticipants | InvalidSetCount

  /** The largest length `new Array(n)` accepts. */
  const MaxArrayLength: int := 0xFFFF_FFFF

  /** The participant a checked box stands for. */
  function ParticipantOf(teamsMode: bool, box: CheckedBox): Participant {
    if teamsMode then Participant(box.value, box.value, "team") else Participant(box.value, box.displayName, "player")
  }

  /** The participants of the checked boxes, in page order. */
  function ParticipantsOf(teamsMode: bool, checked: seq<CheckedBox>): (ps: seq<Participant>)
    ensures |ps| == |checked|
    ensures forall i :: 0 <= i < |ps| ==> ps[i] == ParticipantOf(teamsMode, checked[i])
  {
    seq(|checked|, i requires 0 <= i < |checked| => ParticipantOf(teamsMode, checked[i]))
  }

  /** `participants.map(p => p.name)`. */
  function Names(ps: seq<Participant>): (names: seq<string>)
    ensures |names| == |ps|
    ensures forall i :: 0 <= i < |ps| ==> names[i] == ps[i].name
  {
    seq(|ps|, i requires 0 <= i < |ps| => ps[i].name)
  }

  /** The zero entry of every participant. */
  function FreshPoints(ps: seq<Participant>, sets: nat): (points: map<string, ParticipantPoints>)
    ensures points.Keys == set p | p in ps :: p.id
    ensures forall id :: id in points ==> points[id] == ParticipantPoints(0, Fill(sets))
  {
    map p | p in ps :: p.id := ParticipantPoints(0, Fill(sets))
  }

  /** `generatePointsMatch()`: the match object built from the checked boxes
      of one mode. It is refused with fewer than two boxes; past that check,
      a set count that is not a valid array length makes `new Array` throw.
      Every participant starts with a zero total and a zero in every set. */
  function GeneratePointsMatch(teamsMode: bool, checked: seq<CheckedBox>, descriptionInput: string, fallbackDescription: string,
                               setsInput: string, date: string, timestamp: nat): (r: Result<Draft, GenerateError>)
    ensures r == Failure(TooFewParticipants) <==> |checked| < 2
    ensures r == Failure(InvalidSetCount)
            <==> |checked| >= 2 && !(ParseInt(setsInput).Some? && 0 <= ParseInt(setsInput).value <= MaxArrayLength)
    ensures r.Success? ==> && r.value.matchType == Some(PointsType)
                           && r.value.participantsType == Some(if teamsMode then "teams" else PlayersMode)
                           && r.value.sets == Some(ParseInt(setsInput).value)
                           && r.value.status == Some(Active)
                           && r.value.id == None
    ensures r.Success? ==> && r.value.description == Some(if Trim(descriptionInput) == "" then fallbackDescription
                                                         else Trim(descriptionInput))
                           && r.value.scores == Some(map[])
                           && r.value.standings == Some([])
                           && r.value.date == Some(date)
                           && r.value.timestamp == Some(timestamp)
    ensures r.Success? ==> && r.value.participants == Some(ParticipantsOf(teamsMode, checked))
                           && r.value.teams == Some(Names(ParticipantsOf(teamsMode, checked)))
                           && r.value.players == Some(if teamsMode then [] else ParticipantsOf(teamsMode, checked))
    ensures r.Success? ==> && r.value.points.Some?
                           && r.value.points.value.Keys == (set p | p in ParticipantsOf(teamsMode, checked) :: p.id)
                           && forall id :: id in r.value.points.value ==>
                                r.value.points.value[id] == ParticipantPoints(0, Fill(r.value.sets.value))
  {
    var description := if Trim(descriptionInput) == "" then fallbackDescription else Trim(descriptionInput);
    var participants := ParticipantsOf(teamsMode, checked);
    var count := ParseInt(setsInput);
    if |checked| < 2 then Failure(TooFewParticipants)
    else if !(count.Some? && 0 <= count.value <= MaxArrayLength) then Failure(InvalidSetCount)
    else
      Success(Draft(
        id := None, description := Some(description), matchType := Some(PointsType),
        teams := Some(Names(participants)), players := Some(if teamsMode then [] else participants),
        participants := Some(participants), participantsType := Some(if teamsMode then "teams" else PlayersMode),
        scores := Some(map[]), points := Some(FreshPoints(participants, count.value)),
        sets := Some(count.value), status := Some(Active), date := Some(date), timestamp := Some(timestamp),
        standings := Some([])))
  }

  /** Whether every input the page shows is still empty. */
  predicate Blank(grid: InputGrid) {
    forall k :: k in grid ==> grid[k] == ""
  }

  /** On a blank page every row of inputs sums to 0. */
  lemma {:induction false} BlankRowSum(grid: InputGrid, row: string, column: string, n: int)
    requires Blank(grid)
    ensures RowSum(grid, row, column, n) == 0
    decreases n
  {
    if n > 0 {
      BlankRowSum(grid, row, column, n - 1);
      assert ParseInt("") == None;
    }
  }

  /** On a blank page every participant's total is 0. */
  lemma {:induction false} BlankOpponentsSum(grid: InputGrid, row: string, columns: seq<string>, n: int)
    requires Blank(grid)
    ensures OpponentsSum(grid, row, columns, n) == 0
    decreases |columns|
  {
    if columns != [] {
      BlankOpponentsSum(grid, row, columns[..|columns| - 1], n);
      BlankRowSum(grid, row, columns[|columns| - 1], n);
    }
  }

  /** On a blank page every participant's expected row has 0 points. */
  lemma BlankExpectedRows(m: Match, grid: InputGrid)
    requires Blank(grid)
    ensures forall i :: 0 <= i < |m.participants| ==>
              ExpectedRows(m, grid)[i] == PointsRow(m.participants[i].id, m.participants[i].name, 0)
  {
    forall i | 0 <= i < |m.participants|
      ensures ExpectedRows(m, grid)[i] == PointsRow(m.participants[i].id, m.participants[i].name, 0)
    {
      BlankOpponentsSum(grid, m.participants[i].id, Ids(m.participants), m.sets);
    }
  }

  /** Rows that all score the same are already their own stable sort. */
  lemma LevelRowsStable(rows: seq<Standing>)
    requires forall i :: 0 <= i < |rows| ==> Score(rows[i]) == 0
    ensures StableSort.IsStableSortOf(rows, rows, Score)
  {
  }

  /** On a blank page the standings list every participant with 0 points,
      in participant order. */
  lemma BlankStandings(m: Match, grid: InputGrid)
    requires Blank(grid)
    ensures var r := CalculatePointsStandings(m, grid);
            && |r.standings| == |m.participants|
            && forall i :: 0 <= i < |m.participants| ==>
                 r.standings[i] == PointsRow(m.participants[i].id, m.participants[i].name, 0)
  {
    var rows := ExpectedRows(m, grid);
    BlankExpectedRows(m, grid);
    LevelRowsStable(rows);
    StableSort.StableSortUnique(rows, CalculatePointsStandings(m, grid).standings, rows, Score);
  }

  /** On a blank page every participant's total is 0. */
  lemma BlankTotals(m: Match, grid: InputGrid)
    requires Blank(grid)
    ensures var r := CalculatePointsStandings(m, grid);
            forall p :: p in m.participants ==> p.id in r.points && r.points[p.id].total == 0
  {
    var r := CalculatePointsStandings(m, grid);
    forall p | p in m.participants
      ensures p.id in r.points && r.points[p.id].total == 0
    {
      var i :| 0 <= i < |m.participants| && m.participants[i] == p;
      assert Ids(m.participants)[i] == p.id;
      BlankOpponentsSum(grid, p.id, Ids(m.participants), m.sets);
    }
  }

  /** A freshly generated points match, once saved, ranks every participant
      with 0 points in the order the boxes were checked, as long as every
      input is still empty. */
  lemma GeneratedPointsStartLevel(teamsMode: bool, checked: seq<CheckedBox>, descriptionInput: string,
                                  fallbackDescription: string, setsInput: string, date: string, timestamp: nat,
                                  clock: Clock, newId: string, grid: InputGrid)
    requires GeneratePointsMatch(teamsMode, checked, descriptionInput, fallbackDescription, setsInput, date, timestamp).Success?
    requires Blank(grid)
    ensures var ps := ParticipantsOf(teamsMode, checked);
            var draft := GeneratePointsMatch(teamsMode, checked, descriptionInput, fallbackDescription, setsInput, date, timestamp).value;
            var r := CalculatePointsStandings(SaveMatch(draft, clock, newId), grid);
            && |r.standings| == |ps|
            && (forall i :: 0 <= i < |ps| ==> r.standings[i] == PointsRow(ps[i].id, ps[i].name, 0))
            && (forall p :: p in ps ==> p.id in r.points && r.points[p.id].total == 0)
  {
    var draft := GeneratePointsMatch(teamsMode, checked, descriptionInput, fallbackDescription, setsInput, date, timestamp).value;
    var m := SaveMatch(draft, clock, newId);
    assert m.participants == ParticipantsOf(teamsMode, checked);
    BlankStandings(m, grid);
    BlankTotals(m, grid);
  }
}

/** Classic matches: each team's points, entered by hand or derived from
    the three set strings `"a:b"` in its row, and the standings table
    sorted by those points. */
module ClassicMatch {
  import opened Wrappers
  import opened Text
  import opened Records
  import opened DataManager
  import StableSort

  /** `scores[team]`, or the fresh entry `{points: 0, sets: {}}` the page
      creates when it is missing. */
  function EntryOf(scores: map<string, TeamScore>, team: string): TeamScore {
    if team in scores then scores[team] else TeamScore(0, map[])
  }

  /** `value || null`: an emptied input stores `null`. */
  function StoredSet(value: string): (r: Option<string>)
    ensures r.None? <==> value == ""
    ensures r.Some? ==> r.value == value
  {
    if value == "" then None else Some(value)
  }

  /** `sets[n]`; a missing key reads as `undefined`, which is falsy like
      `null`. */
  function SetString(sets: map<int, Option<string>>, n: int): Option<string> {
    if n in sets then sets[n] else None
  }

  /** Whether a stored set string counts as a set won by the row's team: it
      is non-empty, contains `':'`, and the numbers before the first `':'`
      and between the first and second `':'` are both valid, the first
      greater. */
  predicate SetWon(cell: Option<string>) {
    && cell.Some? && cell.value != "" && ':' in cell.value
    && var parts := Split(cell.value, ':');
       var left := ParseNumber(parts[0]);
       var right := ParseNumber(parts[1]);
       left.Some? && right.Some? && left.value > right.value
  }

  /** The set numbers 1..3 whose strings count as won. */
  function WonSets(sets: map<int, Option<string>>): set<int> {
    set n | 1 <= n <= 3 && SetWon(SetString(sets, n))
  }

  /** The loop over sets `from`..3 that adds 2 points for each set `won`
      holds of. */
  function WinPoints(won: int -> bool, from: int): (r: nat)
    requires 1 <= from <= 4
    decreases 4 - from
    ensures r == 2 * |set n | from <= n <= 3 && won(n)|
    ensures r <= 2 * (4 - from)
  {
    if from == 4 then
      assert (set n | from <= n <= 3 && won(n)) == {};
      0
    else
      var rest := WinPoints(won, from + 1);
      ghost var later := set n | from + 1 <= n <= 3 && won(n);
      ghost var all := set n | from <= n <= 3 && won(n);
      if won(from) then
        assert all == later + {from};
        2 + rest
      else
        assert all == later;
        rest
  }

  /** The points `updateSetScore` computes from a team's set strings. */
  function SetWinPoints(sets: map<int, Option<string>>): (r: nat)
    ensures r == 2 * |WonSets(sets)|
    ensures r in {0, 2, 4, 6}
  {
    var won := n => SetWon(SetString(sets, n));
    var r := WinPoints(won, 1);
    assert (set n | 1 <= n <= 3 && won(n)) == WonSets(sets);
    r
  }

  /** `updateSetScore(matchId, team1, team2, setNumber, value)`: stores the
      set string in `team1`'s row and recomputes that team's points from its
      three set strings, discarding any value entered by hand. */
  function UpdateSetScore(m: Match, team1: string, team2: string, setNumber: int, value: string): (r: Match)
    ensures team1 in r.scores
    ensures r.scores[team1].sets == EntryOf(m.scores, team1).sets[setNumber := StoredSet(value)]
    ensures r.scores[team1].points == 2 * |WonSets(r.scores[team1].sets)|
    ensures r.scores[team1].points in {0, 2, 4, 6}
    ensures forall t :: t != team1 ==> (t in r.scores <==> t in m.scores)
    ensures forall t :: t != team1 && t in m.scores ==> r.scores[t] == m.scores[t]
    ensures r == m.(scores := r.scores)
  {
    var sets := EntryOf(m.scores, team1).sets[setNumber := StoredSet(value)];
    m.(scores := m.scores[team1 := TeamScore(SetWinPoints(sets), sets)])
  }

  /** `updateTeamPoints(matchId, team, value)`: the manual override of a
      team's points by `parseInt(value) || 0`. */
  function UpdateTeamPoints(m: Match, team: string, value: string): (r: Match)
    ensures team in r.scores
    ensures r.scores[team].points == ParseIntOrZero(value)
    ensures r.scores[team].sets == EntryOf(m.scores, team).sets
    ensures forall t :: t != team ==> (t in r.scores <==> t in m.scores)
    ensures forall t :: t != team && t in m.scores ==> r.scores[t] == m.scores[t]
    ensures r == m.(scores := r.scores)
  {
    m.(scores := m.scores[team := EntryOf(m.scores, team).(points := ParseIntOrZero(value))])
  }

  /** A set string written as `"a:b"` counts as won exactly when a > b. */
  lemma SetWonFormatted(a: int, b: int)
    ensures SetWon(Some(IntToString(a) + ":" + IntToString(b))) <==> a > b
  {
    var left := IntToString(a);
    var right := IntToString(b);
    var s := left + ":" + right;
    NumeralHasNoColon(a);
    NumeralHasNoColon(b);
    SplitAtSeparator(left, ':', right);
    assert ':' in s by {
      assert s[|left|] == ':';
    }
    ParseNumberRoundTrip(a);
    ParseNumberRoundTrip(b);
  }

  lemma NumeralHasNoColon(i: int)
    ensures ':' !in IntToString(i)
  {
    var s := IntToString(i);
    if i >= 0 {
      assert forall k :: 0 <= k < |s| ==> IsDigit(s[k]);
    } else {
      var n := NatToString(-i);
      assert s == "-" + n;
      assert forall k :: 1 <= k < |s| ==> s[k] == n[k - 1];
    }
  }

  lemma {:induction false} SplitAtSeparator(a: string, c: char, b: string)
    requires c !in a && c !in b
    ensures Split(a + [c] + b, c) == [a, b]
  {
    if a == [] {
      assert a + [c] + b == [c] + b;
      assert ([c] + b)[1..] == b;
      SplitWithout(b, c);
    } else {
      assert (a + [c] + b)[1..] == a[1..] + [c] + b;
      SplitAtSeparator(a[1..], c, b);
      assert a == [a[0]] + a[1..];
    }
  }

  lemma {:induction false} SplitWithout(s: string, c: char)
    requires c !in s
    ensures Split(s, c) == [s]
  {
    if s != [] {
      SplitWithout(s[1..], c);
      assert s == [s[0]] + s[1..];
    }
  }

  /** A set string of two decimal numerals counts as won exactly when the
      first is the larger. */
  lemma SetWonNumerals(left: string, right: string)
    requires AllDigits(left) && AllDigits(right)
    ensures SetWon(Some(left + ":" + right)) <==> DigitsValue(left) > DigitsValue(right)
  {
    var s := left + ":" + right;
    assert ':' !in left && ':' !in right by {
      assert !IsDigit(':');
    }
    SplitAtSeparator(left, ':', right);
    assert s[|left|] == ':';
  }

  lemma ExampleSetStrings()
    ensures SetWon(Some("25:20")) && !SetWon(Some("20:25")) && SetWon(Some("25:15"))
  {
    assert DigitsValue("25") == 25 by {
      assert "25"[..1] == "2" && "2"[..0] == "";
    }
    assert DigitsValue("20") == 20 by {
      assert "20"[..1] == "2" && "2"[..0] == "";
    }
    assert DigitsValue("15") == 15 by {
      assert "15"[..1] == "1" && "1"[..0] == "";
    }
    SetWonNumerals("25", "20");
    SetWonNumerals("20", "25");
    SetWonNumerals("25", "15");
    assert "25:20" == "25" + ":" + "20";
    assert "20:25" == "20" + ":" + "25";
    assert "25:15" == "25" + ":" + "15";
  }

  /** The worked example of the scoring rule: sets 25:20, 20:25 and 25:15
      give 4 points. */
  lemma SetScoringExample()
    ensures SetWinPoints(map[1 := Some("25:20"), 2 := Some("20:25"), 3 := Some("25:15")]) == 4
  {
    var sets := map[1 := Some("25:20"), 2 := Some("20:25"), 3 := Some("25:15")];
    ExampleSetStrings();
    assert SetString(sets, 1) == Some("25:20");
    assert SetString(sets, 2) == Some("20:25");
    assert SetString(sets, 3) == Some("25:15");
    assert WonSets(sets) == {1, 3};
  }

  /** A set string without `':'` scores nothing. */
  lemma MalformedSetScoresNothing(s: string)
    requires ':' !in s
    ensures !SetWon(Some(s))
  {
  }

  /** A set string whose first or second part is not a numeral (NaN for
      `Number`) scores nothing. */
  lemma NonNumericSideScoresNothing(s: string)
    requires ':' in s
    requires !IsNumeral(Split(s, ':')[0]) || !IsNumeral(Split(s, ':')[1])
    ensures !SetWon(Some(s))
  {
  }

  /** For instance, "abc", "x:5" and "25:2a" score nothing. */
  lemma MalformedExamples()
    ensures !SetWon(Some("abc")) && !SetWon(Some("x:5")) && !SetWon(Some("25:2a"))
  {
    MalformedSetScoresNothing("abc");
    SplitAtSeparator("x", ':', "5");
    assert "x:5" == "x" + [':'] + "5";
    assert !IsDigit('x') && !IsSign('x');
    NonNumericSideScoresNothing("x:5");
    SplitAtSeparator("25", ':', "2a");
    assert "25:2a" == "25" + [':'] + "2a";
    assert !IsDigit('a') && !IsSign('2');
    assert "2a"[1] == 'a';
    NonNumericSideScoresNothing("25:2a");
  }

  /** Entering a set string replaces any points typed in by hand: the
      result does not depend on a manual value entered before. */
  lemma SetScoreOverridesManualPoints(m: Match, team: string, opponent: string, setNumber: int, value: string, manual: string)
    ensures UpdateSetScore(UpdateTeamPoints(m, team, manual), team, opponent, setNumber, value)
         == UpdateSetScore(m, team, opponent, setNumber, value)
  {
  }

  /** The opponent argument of `updateSetScore` has no effect. */
  lemma SetScoreIgnoresOpponent(m: Match, team: string, a: string, b: string, setNumber: int, value: string)
    ensures UpdateSetScore(m, team, a, setNumber, value) == UpdateSetScore(m, team, b, setNumber, value)
  {
  }

  /** Points typed in as a number are stored as that number. */
  lemma ManualPointsRoundTrip(m: Match, team: string, points: int)
    ensures UpdateTeamPoints(m, team, IntToString(points)).scores[team].points == points
  {
    ParseIntRoundTrip(points, "");
    assert IntToString(points) + "" == IntToString(points);
  }

  // ---------------------------------------------------------------------
  // calculateClassicStandings: reading the page's inputs back.

  /** The inputs `calculateClassicStandings` takes a set string from: those
      whose value is non-empty. */
  function NonEmpty(grid: InputGrid): (r: InputGrid)
    ensures forall k :: k in r <==> k in grid && grid[k] != ""
    ensures forall k :: k in r ==> r[k] == grid[k]
  {
    map k | k in grid && grid[k] != "" :: grid[k]
  }

  /** The set strings the non-empty inputs `cells` of `team`'s row write,
      per set 1..3: the input of the last opponent that has one. */
  function SetWrites(cells: InputGrid, team: string, opponents: seq<string>): map<int, Option<string>> {
    map n | 1 <= n <= 3 && LastInput(cells, team, opponents, n).Some? :: Some(LastInput(cells, team, opponents, n).value)
  }

  /** Whether `team`'s row holds any non-empty set input. */
  predicate AnySetInput(cells: InputGrid, team: string, opponents: seq<string>) {
    exists n :: 1 <= n <= 3 && LastInput(cells, team, opponents, n).Some?
  }

  /** The non-empty inputs against one opponent, sets `from`..3. */
  function OpponentWrites(cells: InputGrid, team: string, opponent: string, from: int): map<int, Option<string>> {
    map n | from <= n <= 3 && HasInput(cells, team, opponent, n) :: Some(cells[CellKey(team, opponent, n)])
  }

  /** The inner loop over sets `from`..3 against one opponent. Writing into a
      row that has no `scores` entry is the page's TypeError, `None`. */
  function CollectOpponentSets(scores: map<string, TeamScore>, team: string, opponent: string, from: int, cells: InputGrid)
    : (r: Option<map<string, TeamScore>>)
    requires 1 <= from <= 4
    decreases 4 - from
    ensures r.None? <==> team !in scores && OpponentWrites(cells, team, opponent, from) != map[]
    ensures r.Some? ==> r.value.Keys == scores.Keys
    ensures r.Some? ==> forall t :: t in scores && t != team ==> r.value[t] == scores[t]
    ensures r.Some? && team in scores ==>
              r.value[team] == scores[team].(sets := scores[team].sets + OpponentWrites(cells, team, opponent, from))
  {
    if from == 4 then
      assert OpponentWrites(cells, team, opponent, from) == map[];
      Some(scores)
    else
      var later := OpponentWrites(cells, team, opponent, from + 1);
      var here := OpponentWrites(cells, team, opponent, from);
      if HasInput(cells, team, opponent, from) then
        var value := cells[CellKey(team, opponent, from)];
        assert here == map[from := Some(value)] + later;
        assert from in here;
        if team !in scores then
          None
        else
          var entry := scores[team];
          CollectOpponentSets(scores[team := entry.(sets := entry.sets[from := Some(value)])], team, opponent, from + 1, cells)
      else
        assert here == later;
        CollectOpponentSets(scores, team, opponent, from + 1, cells)
  }

  /** Adding one more opponent in front of a list: the later opponents'
      writes win. */
  lemma SetWritesCons(cells: InputGrid, team: string, opponent: string, rest: seq<string>)
    ensures SetWrites(cells, team, [opponent] + rest) == OpponentWrites(cells, team, opponent, 1) + SetWrites(cells, team, rest)
    ensures AnySetInput(cells, team, [opponent] + rest)
            <==> OpponentWrites(cells, team, opponent, 1) != map[] || AnySetInput(cells, team, rest)
  {
    var cols := [opponent] + rest;
    assert cols[1..] == rest;
    var ow := OpponentWrites(cells, team, opponent, 1);
    forall n | 1 <= n <= 3
      ensures LastInput(cells, team, cols, n)
              == if LastInput(cells, team, rest, n).Some? then LastInput(cells, team, rest, n)
                 else if n in ow then Some(ow[n].value)
                 else None
    {
    }
    if ow != map[] {
      var n :| n in ow;
      assert LastInput(cells, team, cols, n).Some?;
    }
    if AnySetInput(cells, team, cols) {
      var n :| 1 <= n <= 3 && LastInput(cells, team, cols, n).Some?;
      assert n in ow || LastInput(cells, team, rest, n).Some?;
    }
  }

  /** The loop over `opponents` filling `team`'s set strings. */
  function CollectOpponents(scores: map<string, TeamScore>, team: string, opponents: seq<string>, cells: InputGrid)
    : (r: Option<map<string, TeamScore>>)
    decreases |opponents|
    ensures r.None? <==> team !in scores && AnySetInput(cells, team, opponents)
    ensures r.Some? ==> r.value.Keys == scores.Keys
    ensures r.Some? ==> forall t :: t in scores && t != team ==> r.value[t] == scores[t]
    ensures r.Some? && team in scores ==>
              r.value[team] == scores[team].(sets := scores[team].sets + SetWrites(cells, team, opponents))
  {
    if opponents == [] then
      assert SetWrites(cells, team, opponents) == map[];
      Some(scores)
    else
      var opponent := opponents[0];
      var rest := opponents[1..];
      assert opponents == [opponent] + rest;
      SetWritesCons(cells, team, opponent, rest);
      if opponent == team then
        assert OpponentWrites(cells, team, opponent, 1) == map[];
        CollectOpponents(scores, team, rest, cells)
      else
        match CollectOpponentSets(scores, team, opponent, 1, cells)
        case None => None
        case Some(next) =>
          var r := CollectOpponents(next, team, rest, cells);
          if team in scores then
            UnionAssoc(scores[team].sets, OpponentWrites(cells, team, opponent, 1), SetWrites(cells, team, rest));
            r
          else
            assert next == scores;
            r
  }

  /** The entry `team` ends up with when the page's inputs are read back:
      the typed points when there is a points input, and the set strings
      overwritten by the non-empty set inputs `cells`. */
  function CollectedEntry(m: Match, team: string, pointsInputs: map<string, string>, cells: InputGrid): TeamScore {
    var entry := EntryOf(m.scores, team);
    TeamScore(
      if team in pointsInputs then ParseIntOrZero(pointsInputs[team]) else entry.points,
      entry.sets + SetWrites(cells, team, m.teams))
  }

  /** The condition under which reading `team`'s row throws: the team has no
      `scores` entry, no points input creates one, and a set input is
      non-empty. */
  predicate Crashes(m: Match, team: string, pointsInputs: map<string, string>, cells: InputGrid) {
    team !in m.scores && team !in pointsInputs && AnySetInput(cells, team, m.teams)
  }

  /** The match after the inputs have been read, and the team whose row
      threw, if one did (the rows before it keep what was read). */
  datatype Calculated = Calculated(m: Match, crashedAt: Option<string>)

  /** The points input of `team`: `parseInt(value) || 0` into its entry. */
  function ReadPointsInput(m: Match, team: string, pointsInputs: map<string, string>): (r: Match)
    ensures team !in pointsInputs ==> r == m
    ensures team in pointsInputs ==> && team in r.scores
                                     && r.scores[team].points == ParseIntOrZero(pointsInputs[team])
                                     && r.scores[team].sets == EntryOf(m.scores, team).sets
    ensures forall t :: t != team ==> (t in r.scores <==> t in m.scores)
    ensures forall t :: t != team && t in m.scores ==> r.scores[t] == m.scores[t]
    ensures r == m.(scores := r.scores)
  {
    if team in pointsInputs then UpdateTeamPoints(m, team, pointsInputs[team]) else m
  }

  /** The index of the first team of `todo` whose row throws, if any. */
  function FirstCrash(m: Match, todo: seq<string>, pointsInputs: map<string, string>, cells: InputGrid): (r: Option<nat>)
    decreases |todo|
    ensures r.Some? ==> r.value < |todo| && Crashes(m, todo[r.value], pointsInputs, cells)
    ensures r.Some? ==> forall j :: 0 <= j < r.value ==> !Crashes(m, todo[j], pointsInputs, cells)
    ensures r.None? <==> forall j :: 0 <= j < |todo| ==> !Crashes(m, todo[j], pointsInputs, cells)
  {
    if todo == [] then None
    else if Crashes(m, todo[0], pointsInputs, cells) then Some(0)
    else
      match FirstCrash(m, todo[1..], pointsInputs, cells)
      case None => None
      case Some(k) => Some(k + 1)
  }

  /** The teams of `todo` whose rows are read before one throws: all of
      them when none does. */
  function ReadBeforeCrash(m: Match, todo: seq<string>, pointsInputs: map<string, string>, cells: InputGrid)
    : (done: seq<string>)
    ensures done <= todo
  {
    match FirstCrash(m, todo, pointsInputs, cells)
    case None => todo
    case Some(k) => todo[..k]
  }

  /** The outer loop of `calculateClassicStandings` over the teams still to
      read. It stops at the first row that throws; the rows read before it
      keep what was read, and nothing else changes. */
  function CollectInputs(m: Match, todo: seq<string>, pointsInputs: map<string, string>, cells: InputGrid): (r: Calculated)
    decreases |todo|
    ensures r.m == m.(scores := r.m.scores)
    ensures r.crashedAt.None? <==> FirstCrash(m, todo, pointsInputs, cells).None?
    ensures FirstCrash(m, todo, pointsInputs, cells).Some? ==>
              r.crashedAt == Some(todo[FirstCrash(m, todo, pointsInputs, cells).value])
    ensures forall t :: t in r.m.scores <==>
              t in m.scores || (t in ReadBeforeCrash(m, todo, pointsInputs, cells) && t in pointsInputs)
    ensures forall t :: t in r.m.scores ==>
              r.m.scores[t] == if t in ReadBeforeCrash(m, todo, pointsInputs, cells)
                               then CollectedEntry(m, t, pointsInputs, cells) else m.scores[t]
  {
    if todo == [] then
      Calculated(m, None)
    else
      var team := todo[0];
      var m1 := ReadPointsInput(m, team, pointsInputs);
      match CollectOpponents(m1.scores, team, m.teams, cells)
      case None =>
        assert Crashes(m, team, pointsInputs, cells);
        assert ReadBeforeCrash(m, todo, pointsInputs, cells) == [];
        Calculated(m1, Some(team))
      case Some(scores) =>
        var m2 := m1.(scores := scores);
        var r := CollectInputs(m2, todo[1..], pointsInputs, cells);
        CollectInputsStep(m, m2, todo, pointsInputs, cells, r);
        r
  }

  /** The outer loop's step: a row read without a throw, followed by the
      loop over the rest, reads `todo` as the contract of `CollectInputs`
      says. */
  lemma CollectInputsStep(m: Match, m2: Match, todo: seq<string>, pointsInputs: map<string, string>, cells: InputGrid,
                          r: Calculated)
    requires todo != []
    requires CollectOpponents(ReadPointsInput(m, todo[0], pointsInputs).scores, todo[0], m.teams, cells) == Some(m2.scores)
    requires m2 == m.(scores := m2.scores)
    requires r.m == m2.(scores := r.m.scores)
    requires r.crashedAt.None? <==> FirstCrash(m2, todo[1..], pointsInputs, cells).None?
    requires FirstCrash(m2, todo[1..], pointsInputs, cells).Some? ==>
               r.crashedAt == Some(todo[1..][FirstCrash(m2, todo[1..], pointsInputs, cells).value])
    requires forall t :: t in r.m.scores <==>
               t in m2.scores || (t in ReadBeforeCrash(m2, todo[1..], pointsInputs, cells) && t in pointsInputs)
    requires forall t :: t in r.m.scores ==>
               r.m.scores[t] == if t in ReadBeforeCrash(m2, todo[1..], pointsInputs, cells)
                                then CollectedEntry(m2, t, pointsInputs, cells) else m2.scores[t]
    ensures r.m == m.(scores := r.m.scores)
    ensures r.crashedAt.None? <==> FirstCrash(m, todo, pointsInputs, cells).None?
    ensures FirstCrash(m, todo, pointsInputs, cells).Some? ==>
              r.crashedAt == Some(todo[FirstCrash(m, todo, pointsInputs, cells).value])
    ensures forall t :: t in r.m.scores <==>
              t in m.scores || (t in ReadBeforeCrash(m, todo, pointsInputs, cells) && t in pointsInputs)
    ensures forall t :: t in r.m.scores ==>
              r.m.scores[t] == if t in ReadBeforeCrash(m, todo, pointsInputs, cells)
                               then CollectedEntry(m, t, pointsInputs, cells) else m.scores[t]
  {
    StepCrash(m, m2, todo, pointsInputs, cells, r.crashedAt);
    StepRead(m, m2, todo, pointsInputs, cells, r.m.scores);
  }

  /** The throwing row seen from one row earlier. */
  lemma StepCrash(m: Match, m2: Match, todo: seq<string>, pointsInputs: map<string, string>, cells: InputGrid,
                  crashedAt: Option<string>)
    requires todo != []
    requires CollectOpponents(ReadPointsInput(m, todo[0], pointsInputs).scores, todo[0], m.teams, cells) == Some(m2.scores)
    requires m2 == m.(scores := m2.scores)
    requires crashedAt.None? <==> FirstCrash(m2, todo[1..], pointsInputs, cells).None?
    requires FirstCrash(m2, todo[1..], pointsInputs, cells).Some? ==>
               crashedAt == Some(todo[1..][FirstCrash(m2, todo[1..], pointsInputs, cells).value])
    ensures crashedAt.None? <==> FirstCrash(m, todo, pointsInputs, cells).None?
    ensures FirstCrash(m, todo, pointsInputs, cells).Some? ==>
              crashedAt == Some(todo[FirstCrash(m, todo, pointsInputs, cells).value])
  {
    CollectStep(m, todo[0], pointsInputs, cells, m2);
    ReadBeforeCrashStep(m, m2, todo, pointsInputs, cells);
  }

  /** The rows read and their entries seen from one row earlier. */
  lemma StepRead(m: Match, m2: Match, todo: seq<string>, pointsInputs: map<string, string>, cells: InputGrid,
                 scores: map<string, TeamScore>)
    requires todo != []
    requires CollectOpponents(ReadPointsInput(m, todo[0], pointsInputs).scores, todo[0], m.teams, cells) == Some(m2.scores)
    requires m2 == m.(scores := m2.scores)
    requires forall t :: t in scores <==>
               t in m2.scores || (t in ReadBeforeCrash(m2, todo[1..], pointsInputs, cells) && t in pointsInputs)
    requires forall t :: t in scores ==>
               scores[t] == if t in ReadBeforeCrash(m2, todo[1..], pointsInputs, cells)
                            then CollectedEntry(m2, t, pointsInputs, cells) else m2.scores[t]
    ensures forall t :: t in scores <==>
              t in m.scores || (t in ReadBeforeCrash(m, todo, pointsInputs, cells) && t in pointsInputs)
    ensures forall t :: t in scores ==>
              scores[t] == if t in ReadBeforeCrash(m, todo, pointsInputs, cells)
                           then CollectedEntry(m, t, pointsInputs, cells) else m.scores[t]
  {
    CollectStep(m, todo[0], pointsInputs, cells, m2);
    ReadBeforeCrashStep(m, m2, todo, pointsInputs, cells);
    StepScores(m, m2, todo[0], ReadBeforeCrash(m2, todo[1..], pointsInputs, cells), pointsInputs, cells, scores);
  }

  /** The scores after one more row read in front: `team` is read, then
      the rows `done`. */
  lemma StepScores(m: Match, m2: Match, team: string, done: seq<string>, pointsInputs: map<string, string>,
                   cells: InputGrid, scores: map<string, TeamScore>)
    requires forall t :: t in m2.scores <==> t in m.scores || (t == team && team in pointsInputs)
    requires forall t :: t in m2.scores && t != team ==> m2.scores[t] == m.scores[t]
    requires team in m2.scores ==> m2.scores[team] == CollectedEntry(m, team, pointsInputs, cells)
    requires forall t :: CollectedEntry(m2, t, pointsInputs, cells) == CollectedEntry(m, t, pointsInputs, cells)
    requires forall t :: t in scores <==> t in m2.scores || (t in done && t in pointsInputs)
    requires forall t :: t in scores ==>
               scores[t] == if t in done then CollectedEntry(m2, t, pointsInputs, cells) else m2.scores[t]
    ensures forall t :: t in scores <==> t in m.scores || (t in [team] + done && t in pointsInputs)
    ensures forall t :: t in scores ==>
              scores[t] == if t in [team] + done then CollectedEntry(m, t, pointsInputs, cells) else m.scores[t]
  {
    forall t | t in scores
      ensures scores[t] == if t in [team] + done then CollectedEntry(m, t, pointsInputs, cells) else m.scores[t]
    {
      assert t in [team] + done <==> t == team || t in done;
    }
  }

  /** Past a row that does not throw, the first throwing row and the rows
      read before it are those of the rest, one place further on. */
  lemma ReadBeforeCrashStep(m: Match, m2: Match, todo: seq<string>, pointsInputs: map<string, string>, cells: InputGrid)
    requires todo != [] && !Crashes(m, todo[0], pointsInputs, cells)
    requires forall t :: Crashes(m2, t, pointsInputs, cells) <==> Crashes(m, t, pointsInputs, cells)
    ensures FirstCrash(m, todo, pointsInputs, cells).None? <==> FirstCrash(m2, todo[1..], pointsInputs, cells).None?
    ensures FirstCrash(m, todo, pointsInputs, cells).Some? ==>
              FirstCrash(m, todo, pointsInputs, cells).value == FirstCrash(m2, todo[1..], pointsInputs, cells).value + 1
    ensures ReadBeforeCrash(m, todo, pointsInputs, cells) == [todo[0]] + ReadBeforeCrash(m2, todo[1..], pointsInputs, cells)
  {
    var rest := todo[1..];
    FirstCrashSame(m, m2, rest, pointsInputs, cells);
    match FirstCrash(m, rest, pointsInputs, cells)
    case None =>
      assert todo == [todo[0]] + rest;
    case Some(k) =>
      assert todo[..k + 1] == [todo[0]] + rest[..k];
  }

  /** Matches whose rows throw under the same conditions throw first at
      the same row. */
  lemma {:induction false} FirstCrashSame(m: Match, m2: Match, todo: seq<string>, pointsInputs: map<string, string>, cells: InputGrid)
    requires forall t :: Crashes(m2, t, pointsInputs, cells) <==> Crashes(m, t, pointsInputs, cells)
    ensures FirstCrash(m2, todo, pointsInputs, cells) == FirstCrash(m, todo, pointsInputs, cells)
    decreases |todo|
  {
    if todo != [] {
      FirstCrashSame(m, m2, todo[1..], pointsInputs, cells);
    }
  }

  /** One step of the outer loop: the row of `team` read without a throw
      leaves every other row's condition as it was and gives `team` its
      collected entry, which reading it again would not change. */
  lemma CollectStep(m: Match, team: string, pointsInputs: map<string, string>, cells: InputGrid, m2: Match)
    requires CollectOpponents(ReadPointsInput(m, team, pointsInputs).scores, team, m.teams, cells) == Some(m2.scores)
    requires m2 == m.(scores := m2.scores)
    ensures !Crashes(m, team, pointsInputs, cells)
    ensures forall t :: Crashes(m2, t, pointsInputs, cells) <==> Crashes(m, t, pointsInputs, cells)
    ensures forall t :: t in m2.scores <==> t in m.scores || (t == team && team in pointsInputs)
    ensures forall t :: t in m2.scores && t != team ==> m2.scores[t] == m.scores[t]
    ensures team in m2.scores ==> m2.scores[team] == CollectedEntry(m, team, pointsInputs, cells)
    ensures forall t :: CollectedEntry(m2, t, pointsInputs, cells) == CollectedEntry(m, t, pointsInputs, cells)
  {
  }

  /** `match.scores[team]?.points || 0`. */
  function PointsOf(scores: map<string, TeamScore>, team: string): int {
    if team in scores then scores[team].points else 0
  }

  /** One standings row per team of the match, in the match's team order. */
  function ClassicRows(m: Match): (rows: seq<Standing>)
    ensures |rows| == |m.teams|
    ensures forall i :: 0 <= i < |rows| ==> rows[i] == ClassicRow(m.teams[i], PointsOf(m.scores, m.teams[i]))
  {
    seq(|m.teams|, i requires 0 <= i < |m.teams| => ClassicRow(m.teams[i], PointsOf(m.scores, m.teams[i])))
  }

  /** The classic standings: every team once with its stored points,
      ordered by non-increasing points, teams with equal points in the
      match's team order. */
  function ClassicStandings(m: Match): (r: seq<Standing>)
    ensures |r| == |m.teams|
    ensures multiset(r) == multiset(ClassicRows(m))
    ensures forall row :: row in r ==> row.ClassicRow? && row.name in m.teams && row.points == PointsOf(m.scores, row.name)
    ensures StableSort.SortedDesc(r, Score)
    ensures StableSort.IsStableSortOf(ClassicRows(m), r, Score)
  {
    var rows := ClassicRows(m);
    var r := StableSort.SortByScore(rows, Score);
    forall row | row in r
      ensures row.ClassicRow? && row.name in m.teams && row.points == PointsOf(m.scores, row.name)
    {
      assert row in multiset(r);
      assert row in rows;
    }
    r
  }

  /** `calculateClassicStandings(matchId)`: reads every team's points input
      and set inputs back into the match, then stores the standings. It
      throws exactly when some team's row crashes, and then the standings
      are left as they were. */
  function CalculateClassicStandings(m: Match, pointsInputs: map<string, string>, setInputs: InputGrid): (r: Calculated)
    ensures r.crashedAt.Some? <==> exists t :: t in m.teams && Crashes(m, t, pointsInputs, NonEmpty(setInputs))
    ensures FirstCrash(m, m.teams, pointsInputs, NonEmpty(setInputs)).Some? ==>
              r.crashedAt == Some(m.teams[FirstCrash(m, m.teams, pointsInputs, NonEmpty(setInputs)).value])
    ensures r.crashedAt.Some? ==> r.m.standings == m.standings
    ensures forall t :: t in r.m.scores <==>
              t in m.scores || (t in ReadBeforeCrash(m, m.teams, pointsInputs, NonEmpty(setInputs)) && t in pointsInputs)
    ensures forall t :: t in r.m.scores ==>
              r.m.scores[t] == if t in ReadBeforeCrash(m, m.teams, pointsInputs, NonEmpty(setInputs))
                               then CollectedEntry(m, t, pointsInputs, NonEmpty(setInputs)) else m.scores[t]
    ensures r.crashedAt.None? ==> forall t :: t in m.teams && t in r.m.scores ==>
              r.m.scores[t] == CollectedEntry(m, t, pointsInputs, NonEmpty(setInputs))
    ensures r.crashedAt.None? ==>
              forall t :: t in r.m.scores <==> t in m.scores || (t in m.teams && t in pointsInputs)
    ensures r.crashedAt.None? ==> forall t :: t in m.scores && t !in m.teams ==> r.m.scores[t] == m.scores[t]
    ensures r.crashedAt.None? ==> r.m.standings == ClassicStandings(r.m)
    ensures r.m == m.(scores := r.m.scores, standings := r.m.standings)
  {
    var cells := NonEmpty(setInputs);
    var c := CollectInputs(m, m.teams, pointsInputs, cells);
    assert (forall j :: 0 <= j < |m.teams| ==> !Crashes(m, m.teams[j], pointsInputs, cells))
           <==> !(exists t :: t in m.teams && Crashes(m, t, pointsInputs, cells));
    assert c.crashedAt.None? ==> ReadBeforeCrash(m, m.teams, pointsInputs, cells) == m.teams;
    if c.crashedAt.Some? then c else Calculated(c.m.(standings := ClassicStandings(c.m)), None)
  }

  /** Every team of the match has a `scores` entry. */
  predicate ScoresCoverTeams(m: Match) {
    forall t :: t in m.teams ==> t in m.scores
  }

  /** On a match whose teams all have entries, reading the inputs back never
      throws. */
  lemma CoveredNeverCrashes(m: Match, pointsInputs: map<string, string>, setInputs: InputGrid)
    requires ScoresCoverTeams(m)
    ensures CalculateClassicStandings(m, pointsInputs, setInputs).crashedAt.None?
  {
  }

  /** Score entry keeps every team covered. */
  lemma ScoreEntryKeepsCover(m: Match, team: string, opponent: string, setNumber: int, value: string)
    requires ScoresCoverTeams(m)
    ensures ScoresCoverTeams(UpdateSetScore(m, team, opponent, setNumber, value))
    ensures ScoresCoverTeams(UpdateTeamPoints(m, team, value))
  {
  }

  // ---------------------------------------------------------------------
  // generateClassicMatch: the initial record.

  datatype GenerateError = TooFewTeams

  /** The fresh entry of every team: no points, and sets 1..3 all `null`. */
  const FreshScore: TeamScore := TeamScore(0, map[1 := None, 2 := None, 3 := None])

  /** `generateClassicMatch()`: the match object built from the checked team
      boxes, refused when fewer than two are checked. An empty description
      (after trimming) takes the dated fallback. */
  function GenerateClassicMatch(selectedTeams: seq<string>, descriptionInput: string, fallbackDescription: string,
                                date: string, timestamp: nat): (r: Result<Draft, GenerateError>)
    ensures r.Failure? <==> |selectedTeams| < 2
    ensures r.Success? ==> && r.value.matchType == Some(ClassicType)
                           && r.value.teams == Some(selectedTeams)
                           && r.value.status == Some(Active)
                           && r.value.standings == Some([])
                           && r.value.id.None?
    ensures r.Success? ==> r.value.scores.Some? && r.value.scores.value.Keys == set t | t in selectedTeams
    ensures r.Success? ==> forall t :: t in selectedTeams ==> r.value.scores.value[t] == FreshScore
    ensures r.Success? ==> r.value.description == Some(if Trim(descriptionInput) == "" then fallbackDescription else Trim(descriptionInput))
    ensures r.Success? ==> r.value.date == Some(date) && r.value.timestamp == Some(timestamp)
    ensures r.Success? ==> && r.value.players.None? && r.value.participants.None?
                           && r.value.participantsType.None? && r.value.points.None? && r.value.sets.None?
  {
    var description := if Trim(descriptionInput) == "" then fallbackDescription else Trim(descriptionInput);
    if |selectedTeams| < 2 then Failure(TooFewTeams)
    else
      Success(Draft(
        id := None, description := Some(description), matchType := Some(ClassicType),
        teams := Some(selectedTeams), players := None, participants := None, participantsType := None,
        scores := Some(map t | t in selectedTeams :: FreshScore), points := None, sets := None,
        status := Some(Active), date := Some(date), timestamp := Some(timestamp), standings := Some([])))
  }

  /** A generated classic match, once stored, has an entry for every team. */
  lemma GeneratedClassicCovered(selectedTeams: seq<string>, descriptionInput: string, fallbackDescription: string,
                                date: string, timestamp: nat, clock: Clock, newId: string)
    requires GenerateClassicMatch(selectedTeams, descriptionInput, fallbackDescription, date, timestamp).Success?
    ensures ScoresCoverTeams(SaveMatch(GenerateClassicMatch(selectedTeams, descriptionInput, fallbackDescription, date, timestamp).value, clock, newId))
  {
  }
}

/** The lifecycle of a match in the page's list of loaded matches: a match
    is finished (scores read back, standings computed, marked completed)
    and may be reopened for editing. A match is found by id; an id not in
    the list leaves it as it is. */
module Lifecycle {
  import opened Wrappers
  import opened Records
  import ClassicMatch
  import PointsMatch
  import StableSort

  /** `allMatches.find(m => m.id === matchId)`, as the index of the first
      match carrying the id. */
  function Find(store: seq<Match>, id: string): (r: Option<nat>)
    ensures r.Some? ==> r.value < |store| && store[r.value].id == Some(id)
    ensures r.Some? ==> forall j :: 0 <= j < r.value ==> store[j].id != Some(id)
    ensures r.None? <==> forall j :: 0 <= j < |store| ==> store[j].id != Some(id)
  {
    if store == [] then None
    else if store[0].id == Some(id) then Some(0)
    else
      match Find(store[1..], id)
      case None => None
      case Some(k) => Some(k + 1)
  }

  /** `finishClassicMatch(matchId)`: unless the admin declines, reads the
      inputs back into the match, stores its standings and marks it
      completed with the time of finishing. When reading the inputs back
      throws, the match keeps what was read before the failure and is
      neither marked completed nor given standings. */
  function FinishClassicMatch(store: seq<Match>, id: string, confirmed: bool, finishedAt: string,
                              pointsInputs: map<string, string>, setInputs: InputGrid): (r: seq<Match>)
    ensures |r| == |store|
    ensures !confirmed || Find(store, id).None? ==> r == store
    ensures confirmed && Find(store, id).Some? ==>
              var i := Find(store, id).value;
              var c := ClassicMatch.CalculateClassicStandings(store[i], pointsInputs, setInputs);
              && (forall j :: 0 <= j < |store| && j != i ==> r[j] == store[j])
              && r[i] == store[i].(scores := r[i].scores, standings := r[i].standings,
                                   status := r[i].status, completedAt := r[i].completedAt)
              && r[i].scores == c.m.scores
              && (c.crashedAt.Some? ==> r[i].status == store[i].status && r[i].completedAt == store[i].completedAt
                                        && r[i].standings == store[i].standings)
              && (c.crashedAt.None? ==> r[i].status == Completed && r[i].completedAt == Some(finishedAt)
                                        && r[i].standings == ClassicMatch.ClassicStandings(r[i]))
  {
    if !confirmed then store
    else
      match Find(store, id)
      case None => store
      case Some(i) =>
        var c := ClassicMatch.CalculateClassicStandings(store[i], pointsInputs, setInputs);
        if c.crashedAt.Some? then store[i := c.m]
        else store[i := c.m.(status := Completed, completedAt := Some(finishedAt))]
  }

  /** The match `finishPointsMatch` leaves: every participant recalculated
      (twice, as the page does), the standings stored and the match marked
      completed. Entries of ids that are not participants are kept. */
  function FinishedPoints(m: Match, grid: InputGrid, finishedAt: string): (r: Match)
    ensures r == m.(points := r.points, standings := r.standings, status := Completed, completedAt := Some(finishedAt))
    ensures forall t :: t in PointsMatch.ParticipantIds(m) ==>
              t in r.points && r.points[t] == PointsMatch.RecalculatedEntry(m, grid, t)
    ensures forall t :: t !in PointsMatch.ParticipantIds(m) ==> (t in r.points <==> t in m.points)
    ensures forall t :: t !in PointsMatch.ParticipantIds(m) && t in m.points ==> r.points[t] == m.points[t]
    ensures StableSort.IsStableSortOf(PointsMatch.ExpectedRows(m, grid), r.standings, Score)
  {
    var once := PointsMatch.RecalculatePlayerTotals(m, grid);
    var ranked := PointsMatch.CalculatePointsStandings(once, grid);
    assert PointsMatch.ExpectedRows(once, grid) == PointsMatch.ExpectedRows(m, grid);
    assert forall t :: t in PointsMatch.ParticipantIds(m) ==>
                         PointsMatch.RecalculatedEntry(once, grid, t) == PointsMatch.RecalculatedEntry(m, grid, t) by {
      forall t | t in PointsMatch.ParticipantIds(m) {
        PointsMatch.RecalculationAbsorbs(m, once, grid, t);
      }
    }
    ranked.(status := Completed, completedAt := Some(finishedAt))
  }

  lemma SameEntries(a: map<string, ParticipantPoints>, b: map<string, ParticipantPoints>, ids: seq<string>)
    requires forall t :: t in ids ==> t in a && t in b && a[t] == b[t]
    requires forall t :: t !in ids ==> (t in a <==> t in b)
    requires forall t :: t !in ids && t in a ==> a[t] == b[t]
    ensures a == b
  {
    assert a.Keys == b.Keys;
  }

  /** Finishing a points match a second time on the same inputs changes
      nothing. */
  lemma FinishedPointsTwice(m: Match, grid: InputGrid, finishedAt: string)
    ensures FinishedPoints(FinishedPoints(m, grid, finishedAt), grid, finishedAt) == FinishedPoints(m, grid, finishedAt)
  {
    var once := FinishedPoints(m, grid, finishedAt);
    var twice := FinishedPoints(once, grid, finishedAt);
    var ids := PointsMatch.ParticipantIds(m);
    assert PointsMatch.ParticipantIds(once) == ids;
    assert twice.points == once.points by {
      forall t | t in ids
        ensures t in twice.points && t in once.points && twice.points[t] == once.points[t]
      {
        PointsMatch.RecalculationAbsorbs(m, once, grid, t);
      }
      SameEntries(twice.points, once.points, ids);
    }
    assert twice.standings == once.standings by {
      assert PointsMatch.ExpectedRows(once, grid) == PointsMatch.ExpectedRows(m, grid);
      StableSort.StableSortUnique(PointsMatch.ExpectedRows(m, grid), once.standings, twice.standings, Score);
    }
  }

  /** `finishPointsMatch(matchId)`: unless the admin declines, the found
      match is finished as above; no other match changes. */
  function FinishPointsMatch(store: seq<Match>, id: string, confirmed: bool, finishedAt: string,
                             grid: InputGrid): (r: seq<Match>)
    ensures |r| == |store|
    ensures !confirmed || Find(store, id).None? ==> r == store
    ensures confirmed && Find(store, id).Some? ==>
              var i := Find(store, id).value;
              && (forall j :: 0 <= j < |store| && j != i ==> r[j] == store[j])
              && r[i] == FinishedPoints(store[i], grid, finishedAt)
  {
    if !confirmed then store
    else
      match Find(store, id)
      case None => store
      case Some(i) => store[i := FinishedPoints(store[i], grid, finishedAt)]
  }

  /** `finishMatch(matchId)`: a match of type "points" goes to the points
      finisher, a match of any other type to the classic one. */
  function FinishMatch(store: seq<Match>, id: string, confirmed: bool, finishedAt: string,
                       pointsInputs: map<string, string>, setInputs: InputGrid, grid: InputGrid): (r: seq<Match>)
    ensures Find(store, id).None? ==> r == store
    ensures Find(store, id).Some? && store[Find(store, id).value].matchType == PointsType ==>
              r == FinishPointsMatch(store, id, confirmed, finishedAt, grid)
    ensures Find(store, id).Some? && store[Find(store, id).value].matchType != PointsType ==>
              r == FinishClassicMatch(store, id, confirmed, finishedAt, pointsInputs, setInputs)
  {
    match Find(store, id)
    case None => store
    case Some(i) =>
      if store[i].matchType == PointsType then FinishPointsMatch(store, id, confirmed, finishedAt, grid)
      else FinishClassicMatch(store, id, confirmed, finishedAt, pointsInputs, setInputs)
  }

  /** `reopenMatch(matchId)`: the match becomes active again and loses its
      completion time; nothing else about it or any other match changes. */
  function ReopenMatch(store: seq<Match>, id: string): (r: seq<Match>)
    ensures |r| == |store|
    ensures Find(store, id).None? ==> r == store
    ensures Find(store, id).Some? ==>
              var i := Find(store, id).value;
              && (forall j :: 0 <= j < |store| && j != i ==> r[j] == store[j])
              && r[i].status == Active && r[i].completedAt == None
              && r[i].(status := store[i].status, completedAt := store[i].completedAt) == store[i]
  {
    match Find(store, id)
    case None => store
    case Some(i) => store[i := store[i].(status := Active, completedAt := None)]
  }

  /** Reopening keeps every match's id, so a reopened match is found where
      it was. */
  lemma ReopenKeepsPlace(store: seq<Match>, id: string)
    ensures Find(ReopenMatch(store, id), id) == Find(store, id)
  {
    var r := ReopenMatch(store, id);
    assert forall j :: 0 <= j < |store| ==> r[j].id == store[j].id;
    FindSameIds(store, r, id);
  }

  lemma {:induction false} FindSameIds(a: seq<Match>, b: seq<Match>, id: string)
    requires |a| == |b| && forall j :: 0 <= j < |a| ==> a[j].id == b[j].id
    ensures Find(a, id) == Find(b, id)
  {
    if a != [] {
      FindSameIds(a[1..], b[1..], id);
    }
  }

  /** Reopening twice is reopening once. */
  lemma ReopenIdempotent(store: seq<Match>, id: string)
    ensures ReopenMatch(ReopenMatch(store, id), id) == ReopenMatch(store, id)
  {
    ReopenKeepsPlace(store, id);
  }

  /** Finishing an active classic match and reopening it gives back the
      match with its scores read back and its standings computed, and
      nothing else changed. */
  lemma FinishThenReopenClassic(store: seq<Match>, id: string, finishedAt: string,
                                pointsInputs: map<string, string>, setInputs: InputGrid)
    requires Find(store, id).Some?
    requires store[Find(store, id).value].status == Active && store[Find(store, id).value].completedAt == None
    ensures var i := Find(store, id).value;
            ReopenMatch(FinishClassicMatch(store, id, true, finishedAt, pointsInputs, setInputs), id)
            == store[i := ClassicMatch.CalculateClassicStandings(store[i], pointsInputs, setInputs).m]
  {
    var finished := FinishClassicMatch(store, id, true, finishedAt, pointsInputs, setInputs);
    FindSameIds(store, finished, id);
  }

  /** Finishing a points match twice on the same inputs stores what
      finishing it once stores. */
  lemma FinishPointsTwice(store: seq<Match>, id: string, finishedAt: string, grid: InputGrid)
    ensures var once := FinishPointsMatch(store, id, true, finishedAt, grid);
            FinishPointsMatch(once, id, true, finishedAt, grid) == once
  {
    var once := FinishPointsMatch(store, id, true, finishedAt, grid);
    if Find(store, id).Some? {
      FindSameIds(store, once, id);
      FinishedPointsTwice(store[Find(store, id).value], grid, finishedAt);
    }
  }
}

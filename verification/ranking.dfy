/** The rank shown next to a team or participant on a result page: its
    position in the stored standings, or, when it has none there, its
    position in the match's own list (0 when absent from both). */
module Ranking {
  import opened Records
  import ClassicMatch
  import PointsMatch
  import StableSort

  /** No two elements of `s` have the same key. */
  predicate DistinctKeys<T>(s: seq<T>, key: T -> string) {
    forall i, j :: 0 <= i < j < |s| ==> key(s[i]) != key(s[j])
  }

  function NameOf(row: Standing): string {
    match row
    case ClassicRow(name, _) => name
    case PointsRow(_, name, _) => name
  }

  /** The id a row carries; classic rows carry none. */
  function IdOf(row: Standing): string {
    if row.PointsRow? then row.id else ""
  }

  /** `standings.findIndex(t => t.name === name)`. */
  function FindName(standings: seq<Standing>, name: string): (r: int)
    ensures -1 <= r < |standings|
    ensures r >= 0 ==> NameOf(standings[r]) == name && forall j :: 0 <= j < r ==> NameOf(standings[j]) != name
    ensures r == -1 <==> forall j :: 0 <= j < |standings| ==> NameOf(standings[j]) != name
  {
    if standings == [] then -1
    else if NameOf(standings[0]) == name then 0
    else
      var k := FindName(standings[1..], name);
      if k == -1 then -1 else k + 1
  }

  /** `standings.findIndex(p => p.id === id)`: only points rows carry an id. */
  function FindId(standings: seq<Standing>, id: string): (r: int)
    ensures -1 <= r < |standings|
    ensures r >= 0 ==> standings[r].PointsRow? && standings[r].id == id
    ensures r >= 0 ==> forall j :: 0 <= j < r ==> !(standings[j].PointsRow? && standings[j].id == id)
    ensures r == -1 <==> forall j :: 0 <= j < |standings| ==> !(standings[j].PointsRow? && standings[j].id == id)
  {
    if standings == [] then -1
    else if standings[0].PointsRow? && standings[0].id == id then 0
    else
      var k := FindId(standings[1..], id);
      if k == -1 then -1 else k + 1
  }

  /** `teams.indexOf(team)`. */
  function IndexOf(teams: seq<string>, team: string): (r: int)
    ensures -1 <= r < |teams|
    ensures r >= 0 ==> teams[r] == team && forall j :: 0 <= j < r ==> teams[j] != team
    ensures r == -1 <==> team !in teams
  {
    if teams == [] then -1
    else if teams[0] == team then 0
    else
      var k := IndexOf(teams[1..], team);
      if k == -1 then -1 else k + 1
  }

  /** The rank of `team` on a classic result page:
      `standings.findIndex(...) + 1 || teams.indexOf(team) + 1`. */
  function ClassicRank(standings: seq<Standing>, teams: seq<string>, team: string): (r: nat)
    ensures r == 0 <==> (forall j :: 0 <= j < |standings| ==> NameOf(standings[j]) != team) && team !in teams
    ensures (exists j :: 0 <= j < |standings| && NameOf(standings[j]) == team) ==>
              && 1 <= r <= |standings| && NameOf(standings[r - 1]) == team
              && forall j :: 0 <= j < r - 1 ==> NameOf(standings[j]) != team
    ensures (forall j :: 0 <= j < |standings| ==> NameOf(standings[j]) != team) && team in teams ==>
              && 1 <= r <= |teams| && teams[r - 1] == team
              && forall j :: 0 <= j < r - 1 ==> teams[j] != team
  {
    var found := FindName(standings, team) + 1;
    if found != 0 then found else IndexOf(teams, team) + 1
  }

  /** The rank of the participant at `position` in the participant list on
      a points result page: its place in the standings found by id, or else
      its own position in the list. */
  function PointsRank(standings: seq<Standing>, participants: seq<Participant>, position: nat): (r: nat)
    requires position < |participants|
    ensures 1 <= r
    ensures (exists j :: 0 <= j < |standings| && standings[j].PointsRow? && standings[j].id == participants[position].id) ==>
              && r <= |standings| && standings[r - 1].PointsRow? && standings[r - 1].id == participants[position].id
              && forall j :: 0 <= j < r - 1 ==> !(standings[j].PointsRow? && standings[j].id == participants[position].id)
    ensures (forall j :: 0 <= j < |standings| ==> !(standings[j].PointsRow? && standings[j].id == participants[position].id)) ==>
              r == position + 1
  {
    var found := FindId(standings, participants[position].id) + 1;
    if found != 0 then found else position + 1
  }

  lemma {:induction false} DistinctCount<T>(s: seq<T>, x: T)
    requires forall i, j :: 0 <= i < j < |s| ==> s[i] != s[j]
    ensures multiset(s)[x] <= 1
  {
    if s != [] {
      assert s == [s[0]] + s[1..];
      DistinctCount(s[1..], x);
      if s[0] == x {
        assert x !in s[1..];
      }
    }
  }

  lemma TwiceCounted<T>(s: seq<T>, i: nat, j: nat)
    requires i < j < |s| && s[i] == s[j]
    ensures multiset(s)[s[i]] >= 2
  {
    assert s == s[..j] + s[j..];
    assert s[i] in s[..j];
    assert s[j] in s[j..];
  }

  /** A permutation of a sequence whose keys are distinct has distinct
      keys. */
  lemma PermutationKeepsKeysDistinct<T>(input: seq<T>, out: seq<T>, key: T -> string)
    requires multiset(out) == multiset(input)
    requires DistinctKeys(input, key)
    ensures DistinctKeys(out, key)
  {
    forall i, j | 0 <= i < j < |out|
      ensures key(out[i]) != key(out[j])
    {
      if key(out[i]) == key(out[j]) {
        assert out[i] in multiset(input) && out[j] in multiset(input);
        var a :| 0 <= a < |input| && input[a] == out[i];
        var b :| 0 <= b < |input| && input[b] == out[j];
        assert a == b;
        TwiceCounted(out, i, j);
        DistinctCount(input, out[i]);
      }
    }
  }

  /** With distinct team names, the rank shown for the team in place `k` of
      the computed classic standings is `k + 1`. */
  lemma ClassicRankIsPlace(m: Match, k: nat)
    requires forall i, j :: 0 <= i < j < |m.teams| ==> m.teams[i] != m.teams[j]
    requires k < |m.teams|
    ensures var standings := ClassicMatch.ClassicStandings(m);
            ClassicRank(standings, m.teams, NameOf(standings[k])) == k + 1
  {
    var standings := ClassicMatch.ClassicStandings(m);
    var rows := ClassicMatch.ClassicRows(m);
    assert DistinctKeys(rows, NameOf);
    PermutationKeepsKeysDistinct(rows, standings, NameOf);
  }

  lemma PointsRankOfPermutation(rows: seq<Standing>, standings: seq<Standing>, participants: seq<Participant>, k: nat)
    requires |rows| == |participants| && multiset(standings) == multiset(rows)
    requires forall i :: 0 <= i < |rows| ==> rows[i].PointsRow? && rows[i].id == participants[i].id
    requires forall i, j :: 0 <= i < j < |participants| ==> participants[i].id != participants[j].id
    requires k < |standings|
    ensures && standings[k].PointsRow?
            && exists position :: 0 <= position < |participants| && participants[position].id == standings[k].id
                                  && PointsRank(standings, participants, position) == k + 1
  {
    assert DistinctKeys(rows, IdOf);
    PermutationKeepsKeysDistinct(rows, standings, IdOf);
    assert standings[k] in multiset(rows);
    var position :| 0 <= position < |rows| && rows[position] == standings[k];
    var r := PointsRank(standings, participants, position);
    assert IdOf(standings[r - 1]) == IdOf(standings[k]);
  }

  /** With distinct participant ids, the rank shown for every participant
      is its place in the computed points standings. */
  lemma PointsRankIsPlace(m: Match, grid: InputGrid, k: nat)
    requires forall i, j :: 0 <= i < j < |m.participants| ==> m.participants[i].id != m.participants[j].id
    requires k < |m.participants|
    ensures var standings := PointsMatch.CalculatePointsStandings(m, grid).standings;
            && standings[k].PointsRow?
            && exists position :: 0 <= position < |m.participants| && m.participants[position].id == standings[k].id
                                  && PointsRank(standings, m.participants, position) == k + 1
  {
    var standings := PointsMatch.CalculatePointsStandings(m, grid).standings;
    var rows := PointsMatch.ExpectedRows(m, grid);
    assert |standings| == |m.participants| && StableSort.IsStableSortOf(rows, standings, Score);
    StableSort.StableSortIsPermutation(rows, standings, Score);
    PointsRankOfPermutation(rows, standings, m.participants, k);
  }
}

/** The record shapes `DataManager.saveMatch` and `DataManager.saveTeam`
    write. The backend calls themselves are not modelled: a save is the
    record it would write, and the id it returns is a parameter. */
module DataManager {
  import opened Wrappers
  import opened Records

  /** A match object handed to `saveMatch`: every field may be missing. */
  datatype Draft = Draft(
    id: Option<string>,
    description: Option<string>,
    matchType: Option<string>,
    teams: Option<seq<string>>,
    players: Option<seq<Participant>>,
    participants: Option<seq<Participant>>,
    participantsType: Option<string>,
    scores: Option<map<string, TeamScore>>,
    points: Option<map<string, ParticipantPoints>>,
    sets: Option<nat>,
    status: Option<Status>,
    date: Option<string>,
    timestamp: Option<nat>,
    standings: Option<seq<Standing>>)

  /** The clock readings `saveMatch` falls back on: the locale date string
      and `Date.now()`. */
  datatype Clock = Clock(localeString: string, now: nat)

  /** `text || default`: a missing or empty string takes the default. */
  function TextOr(text: Option<string>, default: string): (r: string)
    ensures r == default || (text.Some? && r == text.value && r != "")
    ensures text.Some? && text.value != "" ==> r == text.value
  {
    if text.Some? && text.value != "" then text.value else default
  }

  /** `count || default`: a missing count or 0 takes the default. */
  function CountOr(count: Option<nat>, default: nat): (r: nat)
    ensures r == default || (count.Some? && r == count.value && r != 0)
    ensures count.Some? && count.value != 0 ==> r == count.value
  {
    if count.Some? && count.value != 0 then count.value else default
  }

  /** The match `saveMatch` stores and `getMatches` reads back: the draft's
      `matchData` with its defaults, under the draft's own id when it has
      one (an update) and under the id the backend hands out otherwise (an
      add). The stored record never carries `completedAt`. */
  function SaveMatch(d: Draft, clock: Clock, newId: string): (r: Match)
    ensures d.id.Some? && d.id.value != "" ==> r.id == d.id
    ensures (d.id.None? || d.id.value == "") ==> r.id == Some(newId)
    ensures r.completedAt == None
    ensures r.description == d.description
    ensures r.matchType == TextOr(d.matchType, ClassicType)
    ensures r.participantsType == TextOr(d.participantsType, PlayersMode)
    ensures r.teams == d.teams.GetOr([]) && r.players == d.players.GetOr([])
    ensures r.participants == d.participants.GetOr([])
    ensures r.scores == d.scores.GetOr(map[]) && r.points == d.points.GetOr(map[])
    ensures r.sets == CountOr(d.sets, 3)
    ensures r.status == d.status.GetOr(Active)
    ensures r.date == TextOr(d.date, clock.localeString) && r.timestamp == CountOr(d.timestamp, clock.now)
    ensures r.standings == d.standings.GetOr([])
    ensures r.matchType != "" && r.participantsType != "" && r.sets != 0
  {
    Match(
      id := if d.id.Some? && d.id.value != "" then d.id else Some(newId),
      description := d.description,
      matchType := TextOr(d.matchType, ClassicType),
      teams := d.teams.GetOr([]),
      players := d.players.GetOr([]),
      participants := d.participants.GetOr([]),
      participantsType := TextOr(d.participantsType, PlayersMode),
      scores := d.scores.GetOr(map[]),
      points := d.points.GetOr(map[]),
      sets := CountOr(d.sets, 3),
      status := d.status.GetOr(Active),
      date := TextOr(d.date, clock.localeString),
      timestamp := CountOr(d.timestamp, clock.now),
      standings := d.standings.GetOr([]),
      completedAt := None)
  }

  /** The page's in-memory match handed back to `saveMatch`. */
  function AsDraft(m: Match): Draft {
    Draft(m.id, m.description, Some(m.matchType), Some(m.teams), Some(m.players), Some(m.participants),
          Some(m.participantsType), Some(m.scores), Some(m.points), Some(m.sets), Some(m.status),
          Some(m.date), Some(m.timestamp), Some(m.standings))
  }

  /** Saving a match again never loses its teams, participants, scores,
      points, status or standings, and keeps its id. */
  lemma ResaveKeepsScoring(m: Match, clock: Clock, newId: string)
    requires m.id.Some? && m.id.value != ""
    ensures var r := SaveMatch(AsDraft(m), clock, newId);
      && r.id == m.id && r.description == m.description
      && r.teams == m.teams && r.players == m.players && r.participants == m.participants
      && r.scores == m.scores && r.points == m.points
      && r.status == m.status && r.standings == m.standings
  {
  }

  /** A stored match read back and saved again is stored unchanged, except
      that the page's `completedAt` is dropped. */
  lemma ResaveIsIdentity(m: Match, clock: Clock, newId: string)
    requires m.id.Some? && m.id.value != ""
    requires m.matchType != "" && m.participantsType != "" && m.sets != 0
    requires m.date != "" && m.timestamp != 0
    ensures SaveMatch(AsDraft(m), clock, newId) == m.(completedAt := None)
  {
  }

  /** A player record as `getPlayers` returns it; an empty `id` or `photo`
      stands for a missing one. */
  datatype Player = Player(id: string, name: string, photo: string)

  /** A member entry of a stored team: `{id, name, photo}`. */
  datatype TeamMember = TeamMember(id: Option<string>, name: string, photo: string)

  /** The team record `saveTeam` writes; `createdAt` and `createdBy` are
      not modelled. */
  datatype TeamDocument = TeamDocument(name: string, members: seq<TeamMember>, playerCount: nat)

  const DefaultPhoto: string := "images/default-player.png"

  /** `{id: player.id || null, name, photo: player.photo || default}`. */
  function MemberOf(p: Player): (r: TeamMember)
    ensures r.name == p.name
    ensures r.id.None? <==> p.id == ""
    ensures p.id != "" ==> r.id == Some(p.id)
    ensures p.photo == "" ==> r.photo == DefaultPhoto
    ensures p.photo != "" ==> r.photo == p.photo
    ensures r.photo != ""
  {
    TeamMember(if p.id == "" then None else Some(p.id), p.name, if p.photo == "" then DefaultPhoto else p.photo)
  }

  /** The record `saveTeam(teamName, players)` writes: one member per player,
      in order, and a player count equal to the number of players. */
  function SaveTeam(teamName: string, players: seq<Player>): (r: TeamDocument)
    ensures r.name == teamName
    ensures |r.members| == |players| == r.playerCount
    ensures forall i :: 0 <= i < |players| ==> r.members[i] == MemberOf(players[i])
  {
    TeamDocument(teamName, seq(|players|, i requires 0 <= i < |players| => MemberOf(players[i])), |players|)
  }

  /** A stored member as a player record again. */
  function AsPlayer(member: TeamMember): Player {
    Player(member.id.GetOr(""), member.name, member.photo)
  }

  /** A stored team whose members were written by `saveTeam`, saved again,
      is stored unchanged. */
  lemma ResaveTeamIsIdentity(doc: TeamDocument)
    requires doc.playerCount == |doc.members|
    requires forall i :: 0 <= i < |doc.members| ==> doc.members[i].photo != "" && doc.members[i].id != Some("")
    ensures SaveTeam(doc.name, seq(|doc.members|, i requires 0 <= i < |doc.members| => AsPlayer(doc.members[i]))) == doc
  {
    var players := seq(|doc.members|, i requires 0 <= i < |doc.members| => AsPlayer(doc.members[i]));
    var r := SaveTeam(doc.name, players);
    forall i | 0 <= i < |doc.members|
      ensures r.members[i] == doc.members[i]
    {
      assert players[i] == AsPlayer(doc.members[i]);
    }
  }
}

/** `saveNewTeam()`: an admin builds a team from at least two selected
    players. The team is named after its players and is refused when a team
    of that name exists. */
module TeamCreation {
  import opened Wrappers
  import opened Text
  import opened DataManager

  datatype TeamError = NotAdmin | TooFewSelected | PlayersNotFound | AlreadyExists

  const MinTeamSize: nat := 2
  const NameSeparator: string := " + "

  /** `allPlayers.filter(player => selectedPlayerNames.includes(player.name))`:
      the stored players whose name was selected, in stored order. */
  function SelectedPlayers(players: seq<Player>, names: seq<string>): (r: seq<Player>)
    ensures |r| <= |players|
    ensures forall p :: p in r <==> p in players && p.name in names
    ensures forall p :: multiset(r)[p] == if p.name in names then multiset(players)[p] else 0
    ensures Subsequence(r, players)
  {
    if players == [] then []
    else
      var rest := SelectedPlayers(players[1..], names);
      assert players == [players[0]] + players[1..];
      if players[0].name in names then
        assert Subsequence([players[0]] + rest, players) by {
          assert ([players[0]] + rest)[1..] == rest;
        }
        [players[0]] + rest
      else
        SubsequenceSkip(rest, players);
        rest
  }

  /** `xs` keeps some of the elements of `ys`, in their order in `ys`. */
  predicate Subsequence<T(==)>(xs: seq<T>, ys: seq<T>)
    decreases |ys|
  {
    if xs == [] then true
    else if ys == [] then false
    else if xs[0] == ys[0] then Subsequence(xs[1..], ys[1..])
    else Subsequence(xs, ys[1..])
  }

  /** Skipping the first element of `ys` keeps `xs` a subsequence. */
  lemma {:induction false} SubsequenceSkip<T>(xs: seq<T>, ys: seq<T>)
    requires ys != [] && Subsequence(xs, ys[1..])
    ensures Subsequence(xs, ys)
    decreases |ys|, 0
  {
    if xs != [] && xs[0] == ys[0] {
      SubsequenceTail(xs, ys[1..]);
    }
  }

  /** A subsequence without its head is still a subsequence. */
  lemma {:induction false} SubsequenceTail<T>(xs: seq<T>, ys: seq<T>)
    requires xs != [] && Subsequence(xs, ys)
    ensures Subsequence(xs[1..], ys)
    decreases |ys|, 1
  {
    if xs[0] != ys[0] {
      SubsequenceTail(xs, ys[1..]);
    }
    if xs[1..] != [] {
      SubsequenceSkip(xs[1..], ys);
    }
  }

  /** A subsequence takes each element at most as often as it occurs. */
  lemma {:induction false} SubsequenceCount<T>(xs: seq<T>, ys: seq<T>)
    requires Subsequence(xs, ys)
    ensures multiset(xs) <= multiset(ys)
    decreases |ys|
  {
    if xs != [] {
      assert ys == [ys[0]] + ys[1..];
      if xs[0] == ys[0] {
        SubsequenceCount(xs[1..], ys[1..]);
        assert xs == [xs[0]] + xs[1..];
      } else {
        SubsequenceCount(xs, ys[1..]);
      }
    }
  }

  /** A subsequence that does not start with the head of `ys` lies
      within the rest of `ys`. */
  lemma SubsequenceFirst<T>(xs: seq<T>, ys: seq<T>)
    requires Subsequence(xs, ys) && ys != []
    ensures xs != [] && xs[0] != ys[0] ==> multiset(xs) <= multiset(ys[1..])
  {
    if xs != [] && xs[0] != ys[0] {
      SubsequenceCount(xs, ys[1..]);
    }
  }

  /** The filter is the only order-keeping selection that takes every
      player with a selected name, as often as it is stored, and no other
      player. */
  lemma {:induction false} SelectedPlayersUnique(players: seq<Player>, names: seq<string>, r: seq<Player>)
    requires Subsequence(r, players)
    requires forall p :: multiset(r)[p] == if p.name in names then multiset(players)[p] else 0
    ensures r == SelectedPlayers(players, names)
    decreases |players|
  {
    if players == [] {
      assert r == [];
    } else {
      var p, tail := players[0], players[1..];
      assert players == [p] + tail;
      if p.name in names {
        // `p` must be taken, and taken first.
        assert r != [] by { assert multiset(r)[p] == multiset(players)[p] >= 1; }
        SubsequenceFirst(r, players);
        assert multiset(players)[p] == multiset(tail)[p] + 1;
        assert r[0] == p;
        assert r == [p] + r[1..];
        forall q ensures multiset(r[1..])[q] == if q.name in names then multiset(tail)[q] else 0 {
          assert multiset(r)[q] == multiset(r[1..])[q] + (if q == p then 1 else 0);
          assert multiset(players)[q] == multiset(tail)[q] + (if q == p then 1 else 0);
        }
        SelectedPlayersUnique(tail, names, r[1..]);
      } else {
        // `p` is not taken, so `r` lies within the tail.
        assert r != [] ==> r[0] in multiset(r);
        assert r == [] || r[0] != p;
        forall q ensures multiset(r)[q] == if q.name in names then multiset(tail)[q] else 0 {
          assert multiset(players)[q] == multiset(tail)[q] + (if q == p then 1 else 0);
        }
        SelectedPlayersUnique(tail, names, r);
      }
    }
  }

  /** The name of the team of the selected players. */
  function TeamName(names: seq<string>): string {
    Join(names, NameSeparator)
  }

  /** The checks of `saveNewTeam()`, in order, and the team record it asks
      `saveTeam` to write: one member per selected stored player, under the
      name made of the selected names. */
  function SaveNewTeam(isAdmin: bool, selected: seq<string>, storedPlayers: seq<Player>,
                       existingTeams: set<string>): (r: Result<TeamDocument, TeamError>)
    ensures r == Failure(NotAdmin) <==> !isAdmin
    ensures r == Failure(TooFewSelected) <==> isAdmin && MinTeamSize > |selected|
    ensures r == Failure(PlayersNotFound) <==>
              isAdmin && |selected| >= MinTeamSize && MinTeamSize > |SelectedPlayers(storedPlayers, selected)|
    ensures r == Failure(AlreadyExists) <==>
              && isAdmin && |selected| >= MinTeamSize && |SelectedPlayers(storedPlayers, selected)| >= MinTeamSize
              && TeamName(selected) in existingTeams
    ensures r.Success? ==> r.value.name == TeamName(selected) && r.value.name !in existingTeams
    ensures r.Success? ==> r.value.playerCount == |r.value.members| >= MinTeamSize
    ensures r.Success? ==> forall m :: m in r.value.members ==> m.name in selected && m.photo != ""
    ensures r.Success? ==> forall p :: p in storedPlayers && p.name in selected ==> MemberOf(p) in r.value.members
    ensures r.Success? ==> var players := SelectedPlayers(storedPlayers, selected);
              && r.value.playerCount == |r.value.members| == |players|
              && forall i :: 0 <= i < |players| ==> r.value.members[i] == MemberOf(players[i])
  {
    var players := SelectedPlayers(storedPlayers, selected);
    :- Need(isAdmin, NotAdmin);
    :- Need(|selected| >= MinTeamSize, TooFewSelected);
    :- Need(|players| >= MinTeamSize, PlayersNotFound);
    var name := TeamName(selected);
    :- Need(name !in existingTeams, AlreadyExists);
    SavedMembers(name, players);
    Success(SaveTeam(name, players))
  }

  /** The members `saveTeam` writes are exactly the members of the given
      players. */
  lemma SavedMembers(name: string, players: seq<Player>)
    ensures forall m :: m in SaveTeam(name, players).members ==> exists p :: p in players && m == MemberOf(p)
    ensures forall p :: p in players ==> MemberOf(p) in SaveTeam(name, players).members
  {
    var doc := SaveTeam(name, players);
    forall m | m in doc.members
      ensures exists p :: p in players && m == MemberOf(p)
    {
      var i :| 0 <= i < |doc.members| && doc.members[i] == m;
      assert players[i] in players;
    }
    forall p | p in players
      ensures MemberOf(p) in doc.members
    {
      var i :| 0 <= i < |players| && players[i] == p;
      assert doc.members[i] == MemberOf(p);
    }
  }

  /** Selections whose names hold no '+' get different team names, so the
      existence check compares selections and not just strings. */
  lemma {:induction false} TeamNameInjective(a: seq<string>, b: seq<string>)
    requires |a| >= 1 && |b| >= 1
    requires forall x :: x in a ==> '+' !in x
    requires forall x :: x in b ==> '+' !in x
    requires TeamName(a) == TeamName(b)
    ensures a == b
  {
    JoinShape(a);
    JoinShape(b);
    assert a[0] in a && b[0] in b;
    if |a| >= 2 && |b| >= 2 {
      assert TeamName(a) == (a[0] + " ") + ['+'] + (" " + TeamName(a[1..]));
      assert TeamName(b) == (b[0] + " ") + ['+'] + (" " + TeamName(b[1..]));
      assert a[0] in a && b[0] in b;
      SplitAtFirst(a[0] + " ", b[0] + " ", " " + TeamName(a[1..]), " " + TeamName(b[1..]), '+');
      assert a[0] == (a[0] + " ")[..|a[0]|] == (b[0] + " ")[..|b[0]|] == b[0];
      assert TeamName(a[1..]) == (" " + TeamName(a[1..]))[1..] == (" " + TeamName(b[1..]))[1..] == TeamName(b[1..]);
      forall x | x in a[1..] ensures '+' !in x { assert x in a; }
      forall x | x in b[1..] ensures '+' !in x { assert x in b; }
      TeamNameInjective(a[1..], b[1..]);
      assert a == [a[0]] + a[1..] && b == [b[0]] + b[1..];
    }
  }

  /** The part before the first occurrence of `c` is determined. */
  lemma SplitAtFirst(x: string, y: string, s1: string, s2: string, c: char)
    requires c !in x && c !in y
    requires x + [c] + s1 == y + [c] + s2
    ensures x == y && s1 == s2
  {
    var t := x + [c] + s1;
    Positions(x, c, s1);
    Positions(y, c, s2);
    if |x| == |y| {
      assert x == t[..|x|] == y;
      assert s1 == t[|x| + 1..] == s2;
    }
  }

  lemma JoinShape(xs: seq<string>)
    ensures |xs| == 1 ==> TeamName(xs) == xs[0]
    ensures |xs| >= 2 ==> TeamName(xs) == (xs[0] + " ") + ['+'] + (" " + TeamName(xs[1..]))
    ensures |xs| >= 2 ==> |TeamName(xs)| > |xs[0]| + 1 && TeamName(xs)[|xs[0]| + 1] == '+'
    ensures |xs| >= 2 ==> '+' in TeamName(xs)
  {
  }

  lemma Positions(x: string, c: char, s: string)
    ensures (x + [c] + s)[|x|] == c
    ensures forall k :: 0 <= k < |x| ==> (x + [c] + s)[k] == x[k]
  {
  }
}

/** The request handlers of the team/hero service, as operations on an
    in-memory store of its two tables. Each handler either raises an error
    and leaves both tables as they were, or makes one change. */
module Api {
  import opened Outcomes
  import opened Tables
  import opened Models

  class Store {
    var teams: map<int, Team>
    var heroes: map<int, Hero>

    /** The rule create_hero enforces and update_heroes cannot break. */
    ghost predicate Valid()
      reads this
    {
      HashesUnique(heroes)
    }

    /** Both tables empty, as the service finds them on first start. */
    constructor ()
      ensures Valid()
      ensures teams == map[] && heroes == map[]
    {
      teams := map[];
      heroes := map[];
    }

    // ---------------------------------------------------------------- teams

    /** POST /teams: store the team under an id not yet in use. */
    method CreateTeam(team: Team) returns (id: int)
      requires Valid()
      modifies this
      ensures Valid()
      ensures id !in old(teams)
      ensures teams == old(teams)[id := team]
      ensures heroes == old(heroes)
    {
      id := FreshKey(teams.Keys);
      teams := teams[id := team];
    }

    /** GET /teams: every team, or NotFound when there is none. */
    method FetchAllTeams() returns (r: Result<seq<(int, Team)>>)
      ensures r.Err? <==> teams == map[]
      ensures r.Err? ==> r.error == NotFound
      ensures r.Ok? ==> Lists(r.value, teams)
    {
      var rows := ListRows(teams);
      ListedEmpty(rows, teams);
      if |rows| == 0 {
        r := Err(NotFound);
      } else {
        r := Ok(rows);
      }
    }

    /** GET /teams/{id}: the team stored under the id, or NotFound. */
    method FetchOneTeam(teamId: int) returns (r: Result<Team>)
      ensures teamId !in teams ==> r == Err(NotFound)
      ensures teamId in teams ==> r == Ok(teams[teamId])
    {
      var rows := ListRows(teams);
      var ids := IdList(rows);
      ListedIds(rows, teams, ids);
      if teamId !in ids {
        r := Err(NotFound);
      } else {
        r := Ok(teams[teamId]);
      }
    }

    /** DELETE /teams/{id}, with the not-found branch raising NotFound as
        intended: the team is removed and every hero that belonged to it is
        left without a team. */
    method DeleteOneTeam(teamId: int) returns (r: Result<string>)
      requires Valid()
      modifies this
      ensures Valid()
      ensures teamId !in old(teams) ==>
        r == Err(NotFound) && teams == old(teams) && heroes == old(heroes)
      ensures teamId in old(teams) ==>
        && r == Ok("team " + old(teams)[teamId].name + " deleted successfully")
        && teams == old(teams) - {teamId}
        && heroes == NullTeamRefs(old(heroes), {teamId})
    {
      var rows := ListRows(teams);
      var ids := IdList(rows);
      ListedIds(rows, teams, ids);
      if teamId !in ids {
        r := Err(NotFound);
        return;
      }
      var team := teams[teamId];
      NullTeamRefsKeepsHashesUnique(heroes, {teamId});
      teams := teams - {teamId};
      heroes := NullTeamRefs(heroes, {teamId});
      r := Ok("team " + team.name + " deleted successfully");
    }

    /** DELETE /teams/{id} as the handler is written: its not-found branch
        formats a message with a name that is not defined there, so it fails
        with an uncaught exception rather than NotFound. */
    method DeleteOneTeamAsWritten(teamId: int) returns (r: Result<string>)
      requires Valid()
      modifies this
      ensures Valid()
      ensures teamId !in old(teams) ==>
        r == Err(ServerError) && teams == old(teams) && heroes == old(heroes)
      ensures teamId in old(teams) ==>
        && r == Ok("team " + old(teams)[teamId].name + " deleted successfully")
        && teams == old(teams) - {teamId}
        && heroes == NullTeamRefs(old(heroes), {teamId})
    {
      var rows := ListRows(teams);
      var ids := IdList(rows);
      ListedIds(rows, teams, ids);
      if teamId !in ids {
        r := Err(ServerError);
        return;
      }
      var team := teams[teamId];
      NullTeamRefsKeepsHashesUnique(heroes, {teamId});
      teams := teams - {teamId};
      heroes := NullTeamRefs(heroes, {teamId});
      r := Ok("team " + team.name + " deleted successfully");
    }

    /** DELETE /teams: remove the teams one by one; every hero that belonged
        to one of them is left without a team. */
    method DeleteAllTeam() returns (msg: string)
      requires Valid()
      modifies this
      ensures Valid()
      ensures teams == map[]
      ensures heroes == NullTeamRefs(old(heroes), old(teams).Keys)
      ensures msg == "you have deleted all team"
    {
      var rows := ListRows(teams);
      ghost var gone: set<int> := {};
      for i := 0 to |rows|
        invariant gone == set j | 0 <= j < i :: rows[j].0
        invariant teams == old(teams) - gone
        invariant heroes == NullTeamRefs(old(heroes), gone)
        invariant Valid()
      {
        var id := rows[i].0;
        NullTeamRefsTwice(old(heroes), gone, {id});
        NullTeamRefsKeepsHashesUnique(heroes, {id});
        teams := teams - {id};
        heroes := NullTeamRefs(heroes, {id});
        gone := gone + {id};
      }
      AllListed(rows, old(teams), gone);
      msg := "you have deleted all team";
    }

    /** The ids of a complete listing are exactly the table's keys. */
    static lemma AllListed<V>(rows: seq<(int, V)>, table: map<int, V>, ids: set<int>)
      requires Lists(rows, table)
      requires ids == set j | 0 <= j < |rows| :: rows[j].0
      ensures ids == table.Keys
    {
      forall k | k in table ensures k in ids {
        var i :| 0 <= i < |rows| && rows[i].0 == k;
      }
    }

    // --------------------------------------------------------------- heroes

    /** The stored password form of every listed hero, in listing order (the
        handlers' `pwd_list`). */
    static method HashList(rows: seq<(int, Hero)>) returns (pwds: seq<string>)
      ensures |pwds| == |rows|
      ensures forall i :: 0 <= i < |rows| ==> pwds[i] == rows[i].1.hashedPassword
    {
      pwds := [];
      for i := 0 to |rows|
        invariant |pwds| == i
        invariant forall j :: 0 <= j < i ==> pwds[j] == rows[j].1.hashedPassword
      {
        pwds := pwds + [rows[i].1.hashedPassword];
      }
    }

    /** A stored form is in the `pwd_list` of a complete listing exactly when
        some hero has it. */
    static lemma ListedHashes(rows: seq<(int, Hero)>, heroes: map<int, Hero>, pwds: seq<string>)
      requires Lists(rows, heroes)
      requires |pwds| == |rows|
      requires forall i :: 0 <= i < |rows| ==> pwds[i] == rows[i].1.hashedPassword
      ensures forall p :: p in pwds <==> p in Hashes(heroes)
    {
      forall p | p in Hashes(heroes) ensures p in pwds {
        var k :| k in heroes && heroes[k].hashedPassword == p;
        var i :| 0 <= i < |rows| && rows[i].0 == k;
        assert pwds[i] == p;
      }
      forall p | p in pwds ensures p in Hashes(heroes) {
        var i :| 0 <= i < |pwds| && pwds[i] == p;
        HashedIn(heroes, rows[i].0);
        assert heroes[rows[i].0].hashedPassword == p;
      }
    }

    /** POST /heroes: refuse with Conflict when the stored form of the new
        password is already some hero's; otherwise store the hero under an id
        not yet in use. */
    method CreateHero(hero: HeroCreate) returns (r: Result<int>)
      requires Valid()
      modifies this
      ensures Valid()
      ensures teams == old(teams)
      ensures HashPassword(hero.password) in Hashes(old(heroes)) ==>
        r == Err(Conflict) && heroes == old(heroes)
      ensures HashPassword(hero.password) !in Hashes(old(heroes)) ==>
        && r.Ok? && r.value !in old(heroes)
        && heroes == old(heroes)[r.value := NewHero(hero)]
    {
      var rows := ListRows(heroes);
      var pwds := HashList(rows);
      ListedHashes(rows, heroes, pwds);
      var dbHero := NewHero(hero);
      if dbHero.hashedPassword in pwds {
        r := Err(Conflict);
        return;
      }
      var id := FreshKey(heroes.Keys);
      AddKeepsHashesUnique(heroes, id, dbHero);
      heroes := heroes[id := dbHero];
      r := Ok(id);
    }

    /** GET /heroes: every hero, or NotFound when there is none. */
    method GetAllHero() returns (r: Result<seq<(int, Hero)>>)
      ensures r.Err? <==> heroes == map[]
      ensures r.Err? ==> r.error == NotFound
      ensures r.Ok? ==> Lists(r.value, heroes)
    {
      var rows := ListRows(heroes);
      ListedEmpty(rows, heroes);
      if |rows| == 0 {
        r := Err(NotFound);
      } else {
        r := Ok(rows);
      }
    }

    /** GET /heroes/{id}: the hero stored under the id, or NotFound. */
    method GetOneHero(heroId: int) returns (r: Result<Hero>)
      ensures heroId !in heroes ==> r == Err(NotFound)
      ensures heroId in heroes ==> r == Ok(heroes[heroId])
    {
      var rows := ListRows(heroes);
      var ids := IdList(rows);
      ListedIds(rows, heroes, ids);
      if heroId !in ids {
        r := Err(NotFound);
      } else {
        r := Ok(heroes[heroId]);
      }
    }

    /** PATCH /heroes/{id}: NotFound for an unknown id; Conflict when the body
        sends a password other than the hero's current one; otherwise the
        fields the body sends are written on that hero and nothing else
        changes. */
    method UpdateHeroes(heroId: int, u: HeroUpdate) returns (r: Result<Hero>)
      requires Valid()
      modifies this
      ensures Valid()
      ensures teams == old(teams)
      ensures heroId !in old(heroes) ==> r == Err(NotFound) && heroes == old(heroes)
      ensures heroId in old(heroes) && !PasswordAccepted(old(heroes)[heroId], u) ==>
        r == Err(Conflict) && heroes == old(heroes)
      ensures heroId in old(heroes) && PasswordAccepted(old(heroes)[heroId], u) ==>
        && r == Ok(ApplyUpdate(old(heroes)[heroId], u))
        && heroes == old(heroes)[heroId := r.value]
      ensures heroes.Keys == old(heroes).Keys
      ensures forall k :: k in heroes ==> heroes[k].hashedPassword == old(heroes)[k].hashedPassword
    {
      var rows := ListRows(heroes);
      var ids := IdList(rows);
      // the handler also collects every stored password form, and never uses them
      var pwds := HashList(rows);
      ListedIds(rows, heroes, ids);
      if heroId !in ids {
        r := Err(NotFound);
        return;
      }
      var dbHero := heroes[heroId];
      match u.password {
        case Set(password) =>
          if HashPassword(password) == dbHero.hashedPassword {
            dbHero := ApplyUpdate(dbHero, u).(hashedPassword := HashPassword(password));
          } else {
            r := Err(Conflict);
            return;
          }
        case Unset =>
          dbHero := ApplyUpdate(dbHero, u);
      }
      UpdateKeepsHashesUnique(heroes, heroId, u);
      heroes := heroes[heroId := dbHero];
      r := Ok(dbHero);
    }

    /** DELETE /heroes: remove the heroes one by one. */
    method DeleteAllHero() returns (msg: string)
      modifies this
      ensures Valid()
      ensures teams == old(teams)
      ensures heroes == map[]
      ensures msg == "heroes deleted"
    {
      var rows := ListRows(heroes);
      ghost var gone: set<int> := {};
      for i := 0 to |rows|
        invariant gone == set j | 0 <= j < i :: rows[j].0
        invariant heroes == old(heroes) - gone
        invariant teams == old(teams)
      {
        heroes := heroes - {rows[i].0};
        gone := gone + {rows[i].0};
      }
      AllListed(rows, old(heroes), gone);
      msg := "heroes deleted";
    }

    /** DELETE /heroes/{id}: remove the hero stored under the id, or NotFound. */
    method DeleteOneHero(heroId: int) returns (r: Result<string>)
      requires Valid()
      modifies this
      ensures Valid()
      ensures teams == old(teams)
      ensures heroId !in old(heroes) ==> r == Err(NotFound) && heroes == old(heroes)
      ensures heroId in old(heroes) ==>
        && r == Ok("hero " + old(heroes)[heroId].name + " deleted")
        && heroes == old(heroes) - {heroId}
    {
      if heroId !in heroes {
        r := Err(NotFound);
        return;
      }
      var dbHero := heroes[heroId];
      heroes := heroes - {heroId};
      r := Ok("hero " + dbHero.name + " deleted");
    }
  }

  // ------------------------------------------------------------ scenarios

  /** Creating a team and then fetching it by its id gives back the same team. */
  method CreatedTeamIsFetched(s: Store, team: Team) returns (r: Result<Team>)
    requires s.Valid()
    modifies s
    ensures r == Ok(team)
  {
    var id := s.CreateTeam(team);
    r := s.FetchOneTeam(id);
  }

  /** A hero created in a team can still be fetched after the team is
      deleted, and no longer belongs to any team. */
  method DeletedTeamUnlinksHero(s: Store, team: Team, hero: HeroCreate) returns (r: Result<Hero>)
    requires s.Valid()
    requires HashPassword(hero.password) !in Hashes(s.heroes)
    modifies s
    ensures r.Ok? && r.value.teamId == None
    ensures r.Ok? ==> r.value == NewHero(hero).(teamId := None)
  {
    var teamId := s.CreateTeam(team);
    var created := s.CreateHero(hero.(teamId := Some(teamId)));
    var deleted := s.DeleteOneTeam(teamId);
    r := s.GetOneHero(created.value);
  }

  /** Of two heroes created with the same password, the second is refused. */
  method SamePasswordConflicts(s: Store, a: HeroCreate, b: HeroCreate)
    returns (first: Result<int>, second: Result<int>)
    requires s.Valid()
    requires a.password == b.password
    modifies s
    ensures second == Err(Conflict)
  {
    first := s.CreateHero(a);
    if first.Ok? {
      HashedIn(s.heroes, first.value);
    }
    second := s.CreateHero(b);
  }

  /** Deleting a team id that is not in use: the handler as written fails
      with an uncaught exception where NotFound was intended. */
  method DeleteMissingTeam(s: Store, teamId: int)
    returns (asWritten: Result<string>, intended: Result<string>)
    requires s.Valid()
    requires teamId !in s.teams
    modifies s
    ensures asWritten == Err(ServerError)
    ensures intended == Err(NotFound)
  {
    asWritten := s.DeleteOneTeamAsWritten(teamId);
    intended := s.DeleteOneTeam(teamId);
  }
}

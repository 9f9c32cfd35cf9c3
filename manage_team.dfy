/** The team screen of app/team/manageTeam.tsx: the active-player pool, the
    team-count field, and `createBalancedTeams`, which wipes the old teams
    and scores and stores a freshly generated set. */
module ManageTeam {
  import opened Types
  import opened Balancer
  import opened DocumentStore

  const TOO_MANY_TEAMS: string := "Le nombre d'équipes ne peut pas être supérieur à 5."
  const TOO_FEW_TEAMS: string := "Le nombre d'équipes doit être d'au moins 1."

  predicate IsActive(p: Player) { p.active }

  /** `onChangeText` of the team-count field: the new count and error text. */
  function TeamCountInput(current: nat, currentError: string, num: NumberInput): (r: (nat, string))
    ensures current <= 5 ==> r.0 <= 5
    ensures (num.Num? && r.0 == num.value && r.1 == "") <==> (num.Num? && 1 <= num.value <= 5)
    ensures num.Num? && !(1 <= num.value <= 5) ==> r.0 == 0 && r.1 != ""
    ensures num.NaN? ==> r == (current, currentError)
  {
    match num
    case NaN => (current, currentError)
    case Num(n) =>
      if 1 <= n <= 5 then (n, "")
      else if n > 5 then (0, TOO_MANY_TEAMS)
      else (0, TOO_FEW_TEAMS)
  }

  datatype CreateOutcome =
    | NoActivePlayer                   // nothing to generate: the store is not touched
    | Generated(teams: seq<Team>)      // the new teams were stored
    | Crashed(error: GenError)         // `generateTeams` threw after the wipe
    | InvalidCount                     // refused before touching the store

  class TeamScreen {
    const store: Store
    var players: seq<Player>     // the active players
    var teams: seq<Team>         // the teams on screen
    var nbTeams: nat             // `nbEquipes`
    var error: string
    var modalVisible: bool

    ghost predicate Valid()
      reads this, store
    {
      store.Valid() && nbTeams <= 5
    }

    constructor (store: Store)
      requires store.Valid()
      ensures Valid() && this.store == store
      ensures players == [] && teams == [] && nbTeams == 0 && error == "" && !modalVisible
    {
      this.store := store;
      players, teams, nbTeams, error, modalVisible := [], [], 0, "", false;
    }

    /** `fetchActivePlayers`: the listed players whose `active` flag is set. */
    method FetchActivePlayers(snapshot: seq<Player>)
      requires Valid()
      modifies this
      ensures Valid() && unchanged(store)
      ensures players == Filter(snapshot, IsActive)
      ensures teams == old(teams) && nbTeams == old(nbTeams) && error == old(error)
      ensures modalVisible == old(modalVisible)
    {
      players := Filter(snapshot, IsActive);
    }

    /** `fetchTeams`; the list is read back as the store holds it. */
    method FetchTeams()
      requires Valid()
      modifies this
      ensures Valid() && unchanged(store)
      ensures teams == store.teams
      ensures players == old(players) && nbTeams == old(nbTeams) && error == old(error)
      ensures modalVisible == old(modalVisible)
    {
      teams := store.teams;
    }

    method OnTeamCountText(num: NumberInput)
      requires Valid()
      modifies this
      ensures Valid() && unchanged(store)
      ensures (nbTeams, error) == TeamCountInput(old(nbTeams), old(error), num)
      ensures players == old(players) && teams == old(teams) && modalVisible == old(modalVisible)
    {
      var r := TeamCountInput(nbTeams, error, num);
      nbTeams, error := r.0, r.1;
    }

    /** `delTeams`: every team and every score document is deleted. */
    method DelTeams()
      requires Valid()
      modifies store
      ensures Valid()
      ensures store.teams == [] && store.scores == map[] && store.players == old(store.players)
      ensures unchanged(this)
    {
      store.teams := [];
      store.scores := map[];
    }

    /** `saveTeams`: one new document per generated team. */
    method SaveTeams(gen: seq<Team>)
      requires Valid()
      modifies store
      ensures Valid()
      ensures store.teams == old(store.teams) + gen
      ensures store.scores == old(store.scores) && store.players == old(store.players)
    {
      store.teams := store.teams + gen;
    }

    /** `createBalancedTeams`, as written: the old teams and scores are deleted
        whenever teams are on screen, before `generateTeams` runs, so a count
        of 0 wipes them and then throws. */
    method CreateBalancedTeams(shuffledMen: seq<Player>, shuffledWomen: seq<Player>, currentYear: int)
      returns (outcome: CreateOutcome)
      requires Valid()
      requires multiset(shuffledMen) == multiset(GroupAndSortPlayers(players).men)
      requires multiset(shuffledWomen) == multiset(GroupAndSortPlayers(players).women)
      modifies this, store
      ensures Valid()
      ensures outcome != InvalidCount
      ensures outcome == NoActivePlayer <==> old(players) == []
      ensures old(players) == [] ==> unchanged(this) && unchanged(store)
      ensures outcome.Crashed? <==>
        old(players) != [] && old(nbTeams) == 0 && |shuffledMen| + |shuffledWomen| > 0
      ensures store.players == old(store.players) && players == old(players) && error == old(error)
      ensures outcome.Crashed? ==> unchanged(this)
      ensures old(players) != [] ==>
        var kept := if old(teams) != [] then [] else old(store.teams);
        && store.scores == (if old(teams) != [] then map[] else old(store.scores))
        && (outcome.Crashed? ==> store.teams == kept && teams == old(teams) && nbTeams == old(nbTeams))
        && (outcome.Generated? ==>
              && store.teams == kept + outcome.teams && teams == store.teams
              && nbTeams == 0 && !modalVisible)
      ensures outcome.Generated? ==> |outcome.teams| == old(nbTeams)
      ensures outcome.Generated? && old(nbTeams) > 0 ==>
        outcome.teams == Deal(InitialTeams(old(nbTeams)), Interleaved(shuffledMen, shuffledWomen), currentYear)
    {
      if players == [] {
        return NoActivePlayer;
      }
      if teams != [] {
        DelTeams();
      }
      var gen := Regenerate(shuffledMen, shuffledWomen, currentYear);
      if gen.Failure? {
        return Crashed(gen.error);
      }
      outcome := Generated(gen.value);
    }

    /** The part of `createBalancedTeams` after the wipe: generate, save, read
        the teams back and reset the form. A throw leaves everything as it was. */
    method Regenerate(shuffledMen: seq<Player>, shuffledWomen: seq<Player>, currentYear: int)
      returns (gen: Result<seq<Team>, GenError>)
      requires Valid()
      requires multiset(shuffledMen) == multiset(GroupAndSortPlayers(players).men)
      requires multiset(shuffledWomen) == multiset(GroupAndSortPlayers(players).women)
      modifies this, store
      ensures Valid()
      ensures gen.Failure? <==> old(nbTeams) == 0 && |shuffledMen| + |shuffledWomen| > 0
      ensures gen.Failure? ==> unchanged(this) && unchanged(store)
      ensures store.players == old(store.players) && store.scores == old(store.scores)
      ensures players == old(players) && error == old(error)
      ensures gen.Success? ==>
        && store.teams == old(store.teams) + gen.value && teams == store.teams
        && nbTeams == 0 && !modalVisible
        && |gen.value| == old(nbTeams)
      ensures gen.Success? && old(nbTeams) > 0 ==>
        gen.value == Deal(InitialTeams(old(nbTeams)), Interleaved(shuffledMen, shuffledWomen), currentYear)
    {
      gen := GenerateTeams(players, nbTeams, currentYear, shuffledMen, shuffledWomen);
      if gen.Failure? {
        return;
      }
      SaveTeams(gen.value);
      FetchTeams();
      nbTeams := 0;
      modalVisible := false;
    }

    /** `createBalancedTeams` with the count checked first: a count outside
        1..5 is refused before any document is deleted. */
    method CreateBalancedTeamsChecked(shuffledMen: seq<Player>, shuffledWomen: seq<Player>, currentYear: int)
      returns (outcome: CreateOutcome)
      requires Valid()
      requires multiset(shuffledMen) == multiset(GroupAndSortPlayers(players).men)
      requires multiset(shuffledWomen) == multiset(GroupAndSortPlayers(players).women)
      modifies this, store
      ensures Valid()
      ensures !outcome.Crashed?
      ensures outcome == NoActivePlayer <==> old(players) == []
      ensures outcome == InvalidCount <==> old(players) != [] && old(nbTeams) == 0
      ensures !outcome.Generated? ==> unchanged(this) && unchanged(store)
      ensures store.players == old(store.players) && players == old(players) && error == old(error)
      ensures outcome.Generated? ==>
        && teams == store.teams && nbTeams == 0 && !modalVisible
        && store.teams == (if old(teams) != [] then [] else old(store.teams)) + outcome.teams
        && store.scores == (if old(teams) != [] then map[] else old(store.scores))
        && |outcome.teams| == old(nbTeams) && old(nbTeams) > 0
        && outcome.teams == Deal(InitialTeams(old(nbTeams)), Interleaved(shuffledMen, shuffledWomen), currentYear)
    {
      if players == [] {
        return NoActivePlayer;
      }
      if !(1 <= nbTeams <= 5) {
        return InvalidCount;
      }
      outcome := CreateBalancedTeams(shuffledMen, shuffledWomen, currentYear);
    }
  }

  /** A screen with one active man and one team on screen, the store holding
      that team and one score, and the count left at 0. */
  method OneTeamOnScreen() returns (store: Store, screen: TeamScreen, men: seq<Player>, women: seq<Player>)
    ensures fresh(store) && fresh(screen)
    ensures screen.Valid() && screen.store == store
    ensures screen.players != [] && screen.teams != [] && screen.nbTeams == 0
    ensures multiset(men) == multiset(GroupAndSortPlayers(screen.players).men)
    ensures multiset(women) == multiset(GroupAndSortPlayers(screen.players).women)
    ensures |men| > 0
  {
    store := new Store();
    var old_team := FreshTeam(0);
    store.teams := [old_team];
    store.scores := map[ScoreId("g", "t") := ScoreDoc("g", "t", 3)];
    screen := new TeamScreen(store);
    var man := Player("m", "m", Date(2000, 0, 1), MALE, true);
    var g := GroupAndSortPlayers([man]);
    assert multiset(g.men)[man] == 1;
    screen.players := [man];
    screen.teams := [old_team];
    men, women := g.men, g.women;
  }

  /** A count of 0 with one man registered and one team on screen: the team
      and the stored score are gone and nothing new is saved. */
  method ZeroCountWipesStore() returns (outcome: CreateOutcome, teamsLeft: seq<Team>, scoresLeft: map<string, ScoreDoc>)
    ensures outcome == Crashed(NoTeamToFill)
    ensures teamsLeft == [] && scoresLeft == map[]
  {
    var store, screen, men, women := OneTeamOnScreen();
    outcome := screen.CreateBalancedTeams(men, women, 2025);
    teamsLeft, scoresLeft := store.teams, store.scores;
  }
}

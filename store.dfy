/** The remote document store the screens talk to, reduced to the three
    collections the core reads and writes: `players`, `teams` and `scores`. */
module DocumentStore {
  import opened Types

  /** Id of a score document: `${id_game}_${id_team}`. */
  function ScoreId(game: string, team: string): string
  {
    game + "_" + team
  }

  /** Every stored score is positive (a zero is an absent document) and is
      filed under the id of its own game and team. */
  ghost predicate WellFiled(scores: map<string, ScoreDoc>)
  {
    forall k :: k in scores ==> scores[k].points > 0 && k == ScoreId(scores[k].game, scores[k].team)
  }

  class Store {
    var players: map<string, Player>
    var teams: seq<Team>
    var scores: map<string, ScoreDoc>

    ghost predicate Valid()
      reads this
    {
      && WellFiled(scores)
      && (forall id :: id in players ==> players[id].id == id)
    }

    constructor ()
      ensures Valid()
      ensures players == map[] && teams == [] && scores == map[]
    {
      players, teams, scores := map[], [], map[];
    }
  }
}

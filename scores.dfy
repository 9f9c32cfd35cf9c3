/** The score table of app/index.tsx: flat score documents become a
    game -> team -> points table, the table is folded into per-team totals,
    games played and a running maximum, and `updateScore` writes one
    document, deleting it when the clamped score is 0. */
module Scores {
  import opened Types
  import opened DocumentStore

  /** `Record<string, Record<string, number>>`: game id -> team id -> points. */
  type Table = map<string, map<string, int>>

  /** `m[k] ?? 0`. */
  function Get(m: map<string, int>, k: string): int
  {
    if k in m then m[k] else 0
  }

  // ---------------------------------------------------------------------
  // processScores

  /** Some record among the first `n` is about game `g`. */
  ghost predicate MentionsGame(rs: seq<ScoreDoc>, n: nat, g: string)
    requires n <= |rs|
  {
    exists k :: 0 <= k < n && rs[k].game == g
  }

  /** Some record among the first `n` is about game `g` and team `t`. */
  ghost predicate Mentions(rs: seq<ScoreDoc>, n: nat, g: string, t: string)
    requires n <= |rs|
  {
    exists k :: 0 <= k < n && rs[k].game == g && rs[k].team == t
  }

  /** Record `k` is the last of the first `n` about its game and team. */
  ghost predicate LastOfPair(rs: seq<ScoreDoc>, n: nat, k: nat)
    requires k < n <= |rs|
  {
    forall k' :: k < k' < n ==> !(rs[k'].game == rs[k].game && rs[k'].team == rs[k].team)
  }

  /** One step of the `forEach`: record `r` is written into its game's row,
      which is created first when missing. */
  function Put(table: Table, r: ScoreDoc): (u: Table)
    ensures r.game in u && r.team in u[r.game] && u[r.game][r.team] == r.points
    ensures forall g :: g in u <==> g in table || g == r.game
    ensures forall g, t :: (g in u && t in u[g]) <==> (g in table && t in table[g]) || (g == r.game && t == r.team)
    ensures forall g, t :: g in table && t in table[g] && !(g == r.game && t == r.team) ==> u[g][t] == table[g][t]
  {
    var row := if r.game in table then table[r.game] else map[];
    table[r.game := row[r.team := r.points]]
  }

  ghost predicate GamesKeyed(rs: seq<ScoreDoc>, n: nat, table: Table)
    requires n <= |rs|
  {
    forall g :: g in table <==> MentionsGame(rs, n, g)
  }

  ghost predicate PairsKeyed(rs: seq<ScoreDoc>, n: nat, table: Table)
    requires n <= |rs|
  {
    forall g, t :: (g in table && t in table[g]) <==> Mentions(rs, n, g, t)
  }

  /** The last record about each pair, among the first `n`, holds its points. */
  ghost predicate LastWins(rs: seq<ScoreDoc>, n: nat, table: Table)
    requires n <= |rs|
  {
    forall k :: 0 <= k < n && LastOfPair(rs, n, k) ==>
      rs[k].game in table && rs[k].team in table[rs[k].game]
      && table[rs[k].game][rs[k].team] == rs[k].points
  }

  ghost predicate AllPositive(rs: seq<ScoreDoc>)
  {
    forall k :: 0 <= k < |rs| ==> rs[k].points > 0
  }

  ghost predicate PositiveTable(table: Table)
  {
    forall g, t :: g in table && t in table[g] ==> table[g][t] > 0
  }

  lemma PutKeys(rs: seq<ScoreDoc>, i: nat, table: Table)
    requires i < |rs| && GamesKeyed(rs, i, table) && PairsKeyed(rs, i, table)
    ensures GamesKeyed(rs, i + 1, Put(table, rs[i])) && PairsKeyed(rs, i + 1, Put(table, rs[i]))
  {
    var u := Put(table, rs[i]);
    forall g
      ensures g in u <==> MentionsGame(rs, i + 1, g)
    {
      if MentionsGame(rs, i + 1, g) && rs[i].game != g {
        var k :| 0 <= k < i + 1 && rs[k].game == g;
        assert MentionsGame(rs, i, g);
      }
    }
    forall g, t
      ensures (g in u && t in u[g]) <==> Mentions(rs, i + 1, g, t)
    {
      if Mentions(rs, i + 1, g, t) && !(rs[i].game == g && rs[i].team == t) {
        var k :| 0 <= k < i + 1 && rs[k].game == g && rs[k].team == t;
        assert Mentions(rs, i, g, t);
      }
    }
  }

  lemma PutLast(rs: seq<ScoreDoc>, i: nat, table: Table)
    requires i < |rs| && LastWins(rs, i, table)
    ensures LastWins(rs, i + 1, Put(table, rs[i]))
  {
    forall k | 0 <= k < i && LastOfPair(rs, i + 1, k)
      ensures LastOfPair(rs, i, k)
    {
    }
  }

  /** `processScores`: a game is a key iff some record mentions it, a team is
      a key of that game iff some record is about the pair, and its points are
      those of the last such record. */
  method ProcessScores(rs: seq<ScoreDoc>) returns (table: Table)
    ensures forall g :: g in table <==> MentionsGame(rs, |rs|, g)
    ensures forall g, t :: (g in table && t in table[g]) <==> Mentions(rs, |rs|, g, t)
    ensures forall k :: 0 <= k < |rs| && LastOfPair(rs, |rs|, k) ==>
      rs[k].game in table && rs[k].team in table[rs[k].game]
      && table[rs[k].game][rs[k].team] == rs[k].points
    ensures AllPositive(rs) ==> PositiveTable(table)
  {
    table := map[];
    for i := 0 to |rs|
      invariant GamesKeyed(rs, i, table) && PairsKeyed(rs, i, table) && LastWins(rs, i, table)
      invariant AllPositive(rs) ==> PositiveTable(table)
    {
      PutKeys(rs, i, table);
      PutLast(rs, i, table);
      table := Put(table, rs[i]);
    }
  }

  // ---------------------------------------------------------------------
  // calculateTotalScores

  /** The games among `games` that have an entry for team `t`. */
  ghost function GamesOf(table: Table, games: set<string>, t: string): set<string>
    requires games <= table.Keys
  {
    set g | g in games && t in table[g]
  }

  /** The entry of game `g` for team `t`, 0 when there is none. */
  ghost function Contribution(table: Table, g: string, t: string): int
    requires g in table
  {
    Get(table[g], t)
  }

  /** Sum of team `t`'s entries over the games `games`. */
  ghost function SumFor(table: Table, games: set<string>, t: string): int
    requires games <= table.Keys
    decreases games
  {
    if games == {} then 0
    else
      var g :| g in games;
      Contribution(table, g, t) + SumFor(table, games - {g}, t)
  }

  /** The sum does not depend on which game is taken out first. */
  lemma {:induction false} SumForRemove(table: Table, games: set<string>, g: string, t: string)
    requires games <= table.Keys && g in games
    ensures SumFor(table, games, t) == Contribution(table, g, t) + SumFor(table, games - {g}, t)
    decreases games
  {
    var h :| h in games && SumFor(table, games, t) == Contribution(table, h, t) + SumFor(table, games - {h}, t);
    if h != g {
      SumForRemove(table, games - {h}, g, t);
      SumForRemove(table, games - {g}, h, t);
      assert games - {h} - {g} == games - {g} - {h};
    }
  }

  lemma SumForAdd(table: Table, games: set<string>, g: string)
    requires games <= table.Keys && g in table && g !in games
    ensures forall t :: SumFor(table, games + {g}, t) == SumFor(table, games, t) + Contribution(table, g, t)
    ensures forall t ::
      GamesOf(table, games + {g}, t) == GamesOf(table, games, t) + (if t in table[g] then {g} else {})
  {
    forall t
      ensures SumFor(table, games + {g}, t) == SumFor(table, games, t) + Contribution(table, g, t)
    {
      SumForRemove(table, games + {g}, g, t);
      assert games + {g} - {g} == games;
    }
  }

  /** Every entry of the table is non-negative. */
  ghost predicate NonNegative(table: Table)
  {
    forall g, t :: g in table && t in table[g] ==> table[g][t] >= 0
  }

  /** `totals` and `played` are the fold of the games `done`. */
  ghost predicate Folded(table: Table, done: set<string>, totals: map<string, int>, played: map<string, int>)
    requires done <= table.Keys
  {
    && (forall t :: Get(totals, t) == SumFor(table, done, t))
    && (forall t :: Get(played, t) == |GamesOf(table, done, t)|)
  }

  /** Both counters have the same teams, each with at least one game. */
  ghost predicate CountersAgree(totals: map<string, int>, played: map<string, int>)
  {
    && (forall t :: t in totals <==> t in played)
    && (forall t :: t in played ==> played[t] > 0)
  }

  /** `m` bounds every total. */
  ghost predicate Bounds(totals: map<string, int>, m: int)
  {
    forall t :: t in totals ==> totals[t] <= m
  }

  /** `m` is 0 or some team's total. */
  ghost predicate Attained(totals: map<string, int>, m: int)
  {
    m == 0 || exists u :: u in totals && totals[u] == m
  }

  /** The body of the inner `forEach`: one entry of one game is added to its
      team's total and games played, and the running maximum follows it. */
  method AddEntry(totals0: map<string, int>, played0: map<string, int>, max0: int, t: string, points: int)
    returns (totals: map<string, int>, played: map<string, int>, maxScore: int)
    requires CountersAgree(totals0, played0) && Bounds(totals0, max0)
    ensures t in totals && totals[t] == Get(totals0, t) + points
    ensures forall u :: u != t ==> Get(totals, u) == Get(totals0, u)
    ensures forall u :: Get(played, u) == Get(played0, u) + (if u == t then 1 else 0)
    ensures CountersAgree(totals, played)
    ensures Bounds(totals, maxScore)
    ensures maxScore == (if totals[t] > max0 then totals[t] else max0)
  {
    totals := totals0[t := Get(totals0, t) + points];
    played := played0[t := Get(played0, t) + 1];
    maxScore := max0;
    if totals[t] > maxScore {
      maxScore := totals[t];
    }
  }

  /** `now` is `base` with the points of the entries `done` added. */
  ghost predicate AddedOver(base: map<string, int>, now: map<string, int>, scores: map<string, int>, done: set<string>)
    requires done <= scores.Keys
  {
    forall t :: Get(now, t) == Get(base, t) + (if t in done then scores[t] else 0)
  }

  /** `now` is `base` with one game counted for each team in `done`. */
  ghost predicate CountedOver(base: map<string, int>, now: map<string, int>, done: set<string>)
  {
    forall t :: Get(now, t) == Get(base, t) + (if t in done then 1 else 0)
  }

  /** `m` is 0 or the total of team `best`. */
  ghost predicate HeldBy(totals: map<string, int>, m: int, best: string)
  {
    m == 0 || (best in totals && totals[best] == m)
  }

  lemma AddedStep(base: map<string, int>, before: map<string, int>, after: map<string, int>,
                  scores: map<string, int>, done: set<string>, t: string)
    requires done <= scores.Keys && t in scores && t !in done
    requires AddedOver(base, before, scores, done)
    requires Get(after, t) == Get(before, t) + scores[t]
    requires forall u :: u != t ==> Get(after, u) == Get(before, u)
    ensures AddedOver(base, after, scores, done + {t})
  {
  }

  lemma CountedStep(base: map<string, int>, before: map<string, int>, after: map<string, int>, done: set<string>, t: string)
    requires t !in done
    requires CountedOver(base, before, done)
    requires forall u :: Get(after, u) == Get(before, u) + (if u == t then 1 else 0)
    ensures CountedOver(base, after, done + {t})
  {
  }

  /** Adding a non-negative entry keeps the running maximum attained: by the
      team just raised when the maximum moved, by the old holder otherwise. */
  lemma KeepBest(before: map<string, int>, after: map<string, int>, max1: int, maxScore: int,
                 t: string, points: int, best: string) returns (best': string)
    requires HeldBy(before, max1, best) && Bounds(before, max1) && points >= 0
    requires t in after && after[t] == Get(before, t) + points
    requires forall u :: u != t ==> Get(after, u) == Get(before, u)
    requires maxScore == (if after[t] > max1 then after[t] else max1)
    ensures HeldBy(after, maxScore, best')
  {
    if maxScore != max1 {
      best' := t;
    } else {
      best' := best;
      if max1 != 0 && best != t {
        assert Get(after, best) == max1;
      }
    }
  }

  /** The inner `forEach` of `calculateTotalScores`, over one game's entries,
      in whatever order the object yields them. */
  method AddGame(totals0: map<string, int>, played0: map<string, int>, max0: int, scores: map<string, int>)
    returns (totals: map<string, int>, played: map<string, int>, maxScore: int)
    requires CountersAgree(totals0, played0) && Bounds(totals0, max0)
    ensures forall t :: Get(totals, t) == Get(totals0, t) + Get(scores, t)
    ensures forall t :: Get(played, t) == Get(played0, t) + (if t in scores then 1 else 0)
    ensures CountersAgree(totals, played)
    ensures maxScore >= max0
    ensures Bounds(totals, maxScore)
    ensures (forall t :: t in scores ==> scores[t] >= 0) && Attained(totals0, max0) ==> Attained(totals, maxScore)
  {
    ghost var growing := (forall t :: t in scores ==> scores[t] >= 0) && Attained(totals0, max0);
    ghost var best: string := "";
    if growing && max0 != 0 {
      best :| best in totals0 && totals0[best] == max0;
    }
    totals, played, maxScore := totals0, played0, max0;
    var remaining := scores.Keys;
    ghost var done: set<string> := {};
    while remaining != {}
      invariant remaining + done == scores.Keys && remaining !! done
      invariant AddedOver(totals0, totals, scores, done)
      invariant CountedOver(played0, played, done)
      invariant CountersAgree(totals, played)
      invariant maxScore >= max0 && Bounds(totals, maxScore)
      invariant growing ==> HeldBy(totals, maxScore, best)
      decreases remaining
    {
      var t :| t in remaining;
      ghost var max1, before, pbefore := maxScore, totals, played;
      totals, played, maxScore := AddEntry(totals, played, maxScore, t, scores[t]);
      AddedStep(totals0, before, totals, scores, done, t);
      CountedStep(played0, pbefore, played, done, t);
      if growing {
        best := KeepBest(before, totals, max1, maxScore, t, scores[t], best);
      }
      remaining := remaining - {t};
      done := done + {t};
    }
    assert done == scores.Keys;
  }

  /** Folding one more game keeps `Folded`. */
  lemma FoldStep(table: Table, done: set<string>, g: string,
                 totals0: map<string, int>, played0: map<string, int>,
                 totals: map<string, int>, played: map<string, int>)
    requires done <= table.Keys && g in table && g !in done
    requires Folded(table, done, totals0, played0)
    requires forall t :: Get(totals, t) == Get(totals0, t) + Get(table[g], t)
    requires forall t :: Get(played, t) == Get(played0, t) + (if t in table[g] then 1 else 0)
    ensures Folded(table, done + {g}, totals, played)
  {
    SumForAdd(table, done, g);
    forall t
      ensures Get(played, t) == |GamesOf(table, done + {g}, t)|
    {
      assert g !in GamesOf(table, done, t);
    }
  }

  /** Every entry of one game of a non-negative table is non-negative. */
  lemma NonNegativeStep(table: Table, g: string)
    requires NonNegative(table) && g in table
    ensures forall t :: t in table[g] ==> table[g][t] >= 0
  {
  }

  /** `calculateTotalScores`: each team's total is the sum of its entries over
      all games and its games played the number of games with an entry for it;
      a team with no entry is absent from both. `maxScore` bounds every total
      and, when no entry is negative, is the largest total (0 when none is
      positive). */
  method CalculateTotalScores(table: Table) returns (totals: map<string, int>, played: map<string, int>, maxScore: int)
    ensures forall t :: Get(totals, t) == SumFor(table, table.Keys, t)
    ensures forall t :: Get(played, t) == |GamesOf(table, table.Keys, t)|
    ensures forall t :: t in totals <==> t in played
    ensures forall t :: t in played <==> GamesOf(table, table.Keys, t) != {}
    ensures maxScore >= 0
    ensures forall t :: t in totals ==> totals[t] <= maxScore
    ensures NonNegative(table) ==> maxScore == 0 || exists t :: t in totals && totals[t] == maxScore
  {
    totals, played, maxScore := map[], map[], 0;
    var remaining := table.Keys;
    ghost var done: set<string> := {};
    while remaining != {}
      invariant remaining + done == table.Keys && remaining !! done
      invariant FoldInvariant(table, done, totals, played, maxScore)
      decreases remaining
    {
      var g :| g in remaining;
      totals, played, maxScore := FoldGame(table, done, g, totals, played, maxScore);
      remaining := remaining - {g};
      done := done + {g};
    }
    assert done == table.Keys;
    FoldedTeams(table, totals, played);
  }

  /** What the outer loop of `calculateTotalScores` keeps after the games `done`. */
  ghost predicate FoldInvariant(table: Table, done: set<string>, totals: map<string, int>, played: map<string, int>, maxScore: int)
  {
    && done <= table.Keys
    && Folded(table, done, totals, played)
    && CountersAgree(totals, played)
    && maxScore >= 0 && Bounds(totals, maxScore)
    && (NonNegative(table) ==> Attained(totals, maxScore))
  }

  /** One iteration of the outer loop: game `g` is folded in. */
  method FoldGame(table: Table, ghost done: set<string>, g: string,
                  totals0: map<string, int>, played0: map<string, int>, max0: int)
    returns (totals: map<string, int>, played: map<string, int>, maxScore: int)
    requires g in table && g !in done
    requires FoldInvariant(table, done, totals0, played0, max0)
    ensures FoldInvariant(table, done + {g}, totals, played, maxScore)
  {
    totals, played, maxScore := AddGame(totals0, played0, max0, table[g]);
    FoldStep(table, done, g, totals0, played0, totals, played);
    if NonNegative(table) {
      NonNegativeStep(table, g);
    }
  }

  /** After the whole fold, a team is counted exactly when it has an entry. */
  lemma FoldedTeams(table: Table, totals: map<string, int>, played: map<string, int>)
    requires Folded(table, table.Keys, totals, played) && CountersAgree(totals, played)
    ensures forall t :: t in played <==> GamesOf(table, table.Keys, t) != {}
  {
    forall t
      ensures t in played <==> GamesOf(table, table.Keys, t) != {}
    {
      assert Get(played, t) == |GamesOf(table, table.Keys, t)|;
    }
  }

  // ---------------------------------------------------------------------
  // updateScore and the buttons that feed it

  /** A document write: delete the id, or set it to a document. */
  datatype Write = Delete(key: string) | Upsert(key: string, doc: ScoreDoc)

  /** The write `updateScore` makes: the score is clamped at 0 and a 0 is
      stored as the absence of the document. */
  function ScoreWrite(game: string, team: string, newPoints: int): (w: Write)
    ensures w.key == ScoreId(game, team)
    ensures w.Delete? <==> newPoints <= 0
    ensures w.Upsert? ==> w.doc == ScoreDoc(game, team, newPoints)
  {
    var finalPoints := if newPoints < 0 then 0 else newPoints;
    if finalPoints == 0 then Delete(ScoreId(game, team))
    else Upsert(ScoreId(game, team), ScoreDoc(game, team, finalPoints))
  }

  /** A write keeps the store well filed. */
  ghost predicate Filed(w: Write)
  {
    w.Upsert? ==> w.doc.points > 0 && w.key == ScoreId(w.doc.game, w.doc.team)
  }

  /** The collection after a write: only the written id changes. */
  function Apply(scores: map<string, ScoreDoc>, w: Write): (r: map<string, ScoreDoc>)
    ensures forall k :: k != w.key ==> (k in r <==> k in scores)
    ensures forall k :: k != w.key && k in r ==> r[k] == scores[k]
    ensures w.key in r <==> w.Upsert?
    ensures w.Upsert? ==> r[w.key] == w.doc
  {
    match w
    case Delete(k) => scores - {k}
    case Upsert(k, d) => scores[k := d]
  }

  lemma ScoreWriteFiled(game: string, team: string, newPoints: int)
    ensures Filed(ScoreWrite(game, team, newPoints))
  {
  }

  /** No write of `updateScore` stores a zero or a negative score. */
  lemma ApplyKeepsFiled(scores: map<string, ScoreDoc>, w: Write)
    requires WellFiled(scores) && Filed(w)
    ensures WellFiled(Apply(scores, w))
  {
  }

  /** Setting a score and then writing 0 leaves the collection as if the
      pair had never been scored (apart from what was stored before). */
  lemma ZeroAfterUpsert(scores: map<string, ScoreDoc>, game: string, team: string, p: int)
    ensures Apply(Apply(scores, ScoreWrite(game, team, p)), ScoreWrite(game, team, 0))
         == scores - {ScoreId(game, team)}
  {
  }

  /** `scores[g]?.[t] ?? 0`. */
  function Current(table: Table, game: string, team: string): (c: int)
    ensures (game in table && team in table[game]) ==> c == table[game][team]
    ensures !(game in table && team in table[game]) ==> c == 0
  {
    if game in table then Get(table[game], team) else 0
  }

  /** The score buttons: -1 and +1 in the table, the ±3/±5/±10 presets and
      the typed amount, each signed by the modal's +/- toggle. */
  datatype Button = MinusOne | PlusOne | Preset(positive: bool, step: nat) | Typed(positive: bool, amount: int)

  predicate IsPresetStep(k: nat) { k == 3 || k == 5 || k == 10 }

  /** The `newPoints` a button passes to `updateScore`. */
  function ButtonTarget(table: Table, game: string, team: string, b: Button): (p: int)
    ensures b.MinusOne? ==> p == Current(table, game, team) - 1
    ensures b.PlusOne? ==> p == Current(table, game, team) + 1
    ensures b.Preset? ==> p == Current(table, game, team) + (if b.positive then b.step as int else -(b.step as int))
    ensures b.Typed? ==> p == Current(table, game, team) + (if b.positive then b.amount else -b.amount)
  {
    var c := Current(table, game, team);
    match b
    case MinusOne => c - 1
    case PlusOne => c + 1
    case Preset(pos, k) => if pos then c + k else c - k
    case Typed(pos, a) => if pos then c + a else c - a
  }

  /** The minus button on an absent score deletes an absent document: the
      collection is left as it was. */
  lemma MinusOnAbsent(table: Table, scores: map<string, ScoreDoc>, game: string, team: string)
    requires !(game in table && team in table[game])
    requires ScoreId(game, team) !in scores
    ensures ScoreWrite(game, team, ButtonTarget(table, game, team, MinusOne)).Delete?
    ensures Apply(scores, ScoreWrite(game, team, ButtonTarget(table, game, team, MinusOne))) == scores
  {
  }

  /** Every button writes to the pair's own document: a delete exactly when
      the current score moved by the button's signed step is at most 0, and
      otherwise exactly that moved score. */
  lemma ButtonWrite(table: Table, game: string, team: string, b: Button)
    ensures var w := ScoreWrite(game, team, ButtonTarget(table, game, team, b));
      var c := Current(table, game, team);
      var moved :=
        if b.MinusOne? then c - 1
        else if b.PlusOne? then c + 1
        else if b.Preset? then (if b.positive then c + b.step else c - b.step)
        else (if b.positive then c + b.amount else c - b.amount);
      && w.key == ScoreId(game, team)
      && (w.Delete? <==> moved <= 0)
      && (w.Upsert? ==> w.doc == ScoreDoc(game, team, moved))
  {
  }

  /** A negative preset never takes a score below 0: it either lowers the
      stored score by the step or removes the document. */
  lemma NegativePresetFloors(table: Table, game: string, team: string, k: nat)
    requires IsPresetStep(k)
    ensures var w := ScoreWrite(game, team, ButtonTarget(table, game, team, Preset(false, k)));
      (Current(table, game, team) <= k <==> w.Delete?)
      && (w.Upsert? ==> w.doc.points == Current(table, game, team) - k)
  {
  }

  const SCORE_TOO_LOW: string := "Le score doit être d'au moins 1."

  /** `onChangeText` of the typed-score field: the new amount and error text. */
  function ScoreModalInput(current: int, currentError: string, num: NumberInput): (r: (int, string))
    ensures current >= 0 ==> r.0 >= 0
    ensures (num.Num? && num.value >= 1) <==> (num.Num? && r.0 == num.value && r.1 == "")
    ensures num.Num? && num.value < 1 ==> r.0 == 0 && r.1 != ""
    ensures num.NaN? ==> r == (current, currentError)
  {
    match num
    case NaN => (current, currentError)
    case Num(n) => if n >= 1 then (n, "") else (0, SCORE_TOO_LOW)
  }

  /** `snapshot` lists the documents of `scores`: each listed document is the
      one filed under its pair's id, and every stored document is listed. */
  ghost predicate ScoreListing(snapshot: seq<ScoreDoc>, scores: map<string, ScoreDoc>)
  {
    && (forall k :: 0 <= k < |snapshot| ==>
          ScoreId(snapshot[k].game, snapshot[k].team) in scores
          && scores[ScoreId(snapshot[k].game, snapshot[k].team)] == snapshot[k])
    && (forall id :: id in scores ==> scores[id] in snapshot)
  }

  /** The pair has a document in the store. */
  ghost predicate Stored(scores: map<string, ScoreDoc>, game: string, team: string)
  {
    ScoreId(game, team) in scores && scores[ScoreId(game, team)].game == game
    && scores[ScoreId(game, team)].team == team
  }

  /** The home screen's score state, with the `isUpdatingRef` busy flag. The
      pending write is the one `updateScore` is waiting on. */
  class ScoreBoard {
    const store: Store
    var busy: bool
    var pending: Option<Write>
    var table: Table
    var totals: map<string, int>
    var played: map<string, int>
    var maxScore: int

    ghost predicate Valid()
      reads this, store
    {
      && store.Valid()
      && (busy <==> pending.Some?)
      && (pending.Some? ==> Filed(pending.value))
    }

    constructor (store: Store)
      requires store.Valid()
      ensures Valid() && this.store == store
      ensures !busy && table == map[] && totals == map[] && played == map[] && maxScore == 0
    {
      this.store := store;
      busy, pending := false, None;
      table, totals, played, maxScore := map[], map[], map[], 0;
    }

    /** The start of `updateScore`: ignored while a write is pending, else the
        flag is set and the clamped write is issued. */
    method UpdateScore(game: string, team: string, newPoints: int) returns (accepted: bool)
      requires Valid()
      modifies this
      ensures Valid()
      ensures accepted <==> !old(busy)
      ensures !accepted ==> unchanged(this)
      ensures accepted ==> busy && pending == Some(ScoreWrite(game, team, newPoints))
      ensures table == old(table) && totals == old(totals) && played == old(played) && maxScore == old(maxScore)
    {
      if busy {
        return false;
      }
      busy := true;
      ScoreWriteFiled(game, team, newPoints);
      pending := Some(ScoreWrite(game, team, newPoints));
      accepted := true;
    }

    /** A button press: `updateScore` with the button's target. */
    method Press(game: string, team: string, b: Button) returns (accepted: bool)
      requires Valid()
      modifies this
      ensures Valid()
      ensures accepted <==> !old(busy)
      ensures !accepted ==> unchanged(this)
      ensures accepted ==> busy && pending == Some(ScoreWrite(game, team, ButtonTarget(old(table), game, team, b)))
      ensures table == old(table) && totals == old(totals) && played == old(played) && maxScore == old(maxScore)
    {
      accepted := UpdateScore(game, team, ButtonTarget(table, game, team, b));
    }

    /** The end of `updateScore`: on success the write reaches the store; the
        flag is cleared either way (`finally`). */
    method CompleteUpdate(ok: bool)
      requires Valid() && busy
      modifies this, store
      ensures Valid()
      ensures !busy
      ensures store.scores == if ok then Apply(old(store.scores), old(pending.value)) else old(store.scores)
      ensures store.players == old(store.players) && store.teams == old(store.teams)
      ensures table == old(table) && totals == old(totals) && played == old(played) && maxScore == old(maxScore)
    {
      if ok {
        ApplyKeepsFiled(store.scores, pending.value);
        store.scores := Apply(store.scores, pending.value);
      }
      busy, pending := false, None;
    }

    /** `fetchScores` followed by `processScores` and `calculateTotalScores`
        on a listing of the stored documents. */
    method Refresh(snapshot: seq<ScoreDoc>)
      requires Valid()
      requires ScoreListing(snapshot, store.scores)
      modifies this
      ensures Valid()
      ensures busy == old(busy) && pending == old(pending)
      ensures forall g, t :: (g in table && t in table[g]) <==> Stored(store.scores, g, t)
      ensures forall g, t :: Stored(store.scores, g, t) ==>
        Current(table, g, t) == store.scores[ScoreId(g, t)].points > 0
      ensures forall t :: Get(totals, t) == SumFor(table, table.Keys, t)
      ensures forall t :: Get(played, t) == |GamesOf(table, table.Keys, t)|
      ensures forall t :: t in totals <==> GamesOf(table, table.Keys, t) != {}
      ensures forall t :: t in totals ==> totals[t] <= maxScore
      ensures maxScore == 0 || exists t :: t in totals && totals[t] == maxScore
    {
      var t := ProcessScores(snapshot);
      RefreshedTable(snapshot, store.scores, t);
      var tot, pl, mx := CalculateTotalScores(t);
      table, totals, played, maxScore := t, tot, pl, mx;
    }
  }

  /** What `processScores` yields on a listing of a well-filed collection. */
  lemma RefreshedTable(snapshot: seq<ScoreDoc>, scores: map<string, ScoreDoc>, table: Table)
    requires WellFiled(scores) && ScoreListing(snapshot, scores)
    requires PairsKeyed(snapshot, |snapshot|, table)
    requires LastWins(snapshot, |snapshot|, table)
    ensures forall g, t :: (g in table && t in table[g]) <==> Stored(scores, g, t)
    ensures forall g, t :: Stored(scores, g, t) ==> Current(table, g, t) == scores[ScoreId(g, t)].points > 0
    ensures NonNegative(table)
  {
    forall g, t | Stored(scores, g, t)
      ensures g in table && t in table[g]
    {
      StoredIsMentioned(snapshot, scores, g, t);
    }
    forall g, t | g in table && t in table[g]
      ensures Stored(scores, g, t) && table[g][t] == scores[ScoreId(g, t)].points > 0
    {
      var k := LastMention(snapshot, |snapshot|, g, t);
      MentionIsStored(snapshot, scores, k);
    }
  }

  lemma StoredIsMentioned(snapshot: seq<ScoreDoc>, scores: map<string, ScoreDoc>, g: string, t: string)
    requires forall id :: id in scores ==> scores[id] in snapshot
    requires Stored(scores, g, t)
    ensures Mentions(snapshot, |snapshot|, g, t)
  {
    var k :| 0 <= k < |snapshot| && snapshot[k] == scores[ScoreId(g, t)];
    assert snapshot[k].game == g && snapshot[k].team == t;
  }

  lemma MentionIsStored(snapshot: seq<ScoreDoc>, scores: map<string, ScoreDoc>, k: nat)
    requires WellFiled(scores) && ScoreListing(snapshot, scores) && k < |snapshot|
    ensures Stored(scores, snapshot[k].game, snapshot[k].team)
    ensures scores[ScoreId(snapshot[k].game, snapshot[k].team)] == snapshot[k]
    ensures snapshot[k].points > 0
  {
  }

  /** A mentioned pair has a last mention. */
  lemma {:induction false} LastMention(rs: seq<ScoreDoc>, n: nat, g: string, t: string) returns (k: nat)
    requires n <= |rs| && Mentions(rs, n, g, t)
    ensures k < n && rs[k].game == g && rs[k].team == t && LastOfPair(rs, n, k)
  {
    if rs[n - 1].game == g && rs[n - 1].team == t {
      k := n - 1;
    } else {
      var j :| 0 <= j < n && rs[j].game == g && rs[j].team == t;
      assert j < n - 1;
      k := LastMention(rs, n - 1, g, t);
    }
  }
}

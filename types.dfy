/** Records shared by the screens of the tournament app (types/player.ts), the
    birth-date order that stands in for `Date.parse`, and the two list
    operations every screen uses on players: filtering and the birth-date sort. */
module Types {

  datatype Option<T> = None | Some(value: T)

  datatype Result<T, E> = Success(value: T) | Failure(error: E)

  /** The outcome of `Number(text)` on a text field: a number, or NaN. */
  datatype NumberInput = NaN | Num(value: int)

  /** A calendar date; `month` is kept as the source's `getMonth()` gives it. */
  datatype Date = Date(year: int, month: int, day: int)

  /** `a` is not later than `b` (lexicographic on year, month, day). */
  predicate NotAfter(a: Date, b: Date)
  {
    a.year < b.year
    || (a.year == b.year && (a.month < b.month || (a.month == b.month && a.day <= b.day)))
  }

  lemma NotAfterTotal(a: Date, b: Date)
    ensures NotAfter(a, b) || NotAfter(b, a)
  {
  }

  datatype Player = Player(id: string, name: string, birth: Date, sex: string, active: bool)

  /** The two values of `sexe` the app stores ("Homme", "Femme"). */
  const MALE: string := "H"
  const FEMALE: string := "F"

  datatype Team = Team(
    id: string,
    name: string,          // `nom`, the canonical "Equipe i"
    customName: string,    // `customNom`, user-editable
    men: seq<Player>,      // `hommes`
    women: seq<Player>,    // `femmes`
    ageTotal: int,
    totalPlayers: int,
    points: int)

  /** A document of the `scores` collection. */
  datatype ScoreDoc = ScoreDoc(game: string, team: string, points: int)

  /** `xs.filter(keep)`: the kept elements, in their original order. */
  function Filter(xs: seq<Player>, keep: Player -> bool): (r: seq<Player>)
    ensures forall p :: p in r ==> keep(p)
    ensures forall p :: multiset(r)[p] == if keep(p) then multiset(xs)[p] else 0
  {
    if xs == [] then []
    else
      assert xs == [xs[0]] + xs[1..];
      (if keep(xs[0]) then [xs[0]] else []) + Filter(xs[1..], keep)
  }

  /** Ascending by birth date, as `sort((a, b) => Date.parse(a) - Date.parse(b))`. */
  ghost predicate SortedByBirth(s: seq<Player>)
  {
    forall i, j :: 0 <= i < j < |s| ==> NotAfter(s[i].birth, s[j].birth)
  }

  /** Puts `p` in front of the first element it is not later than. */
  function InsertByBirth(p: Player, s: seq<Player>): (r: seq<Player>)
    requires SortedByBirth(s)
    ensures SortedByBirth(r)
    ensures multiset(r) == multiset(s) + multiset{p}
    ensures forall x :: x in r ==> x in s || x == p
  {
    if s == [] then [p]
    else if NotAfter(p.birth, s[0].birth) then [p] + s
    else
      var rest := InsertByBirth(p, s[1..]);
      assert s == [s[0]] + s[1..];
      NotAfterTotal(p.birth, s[0].birth);
      assert forall x :: x in rest ==> NotAfter(s[0].birth, x.birth);
      [s[0]] + rest
  }

  /** Insertion sort by birth date; equal dates keep their input order, as the
      stable `Array.prototype.sort` does. */
  function SortByBirth(s: seq<Player>): (r: seq<Player>)
    ensures SortedByBirth(r)
    ensures multiset(r) == multiset(s)
  {
    if s == [] then []
    else
      assert s == [s[0]] + s[1..];
      InsertByBirth(s[0], SortByBirth(s[1..]))
  }
}

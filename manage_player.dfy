/** The roster screen of app/player/managePlayer.tsx: the displayed age, the
    active switch, the add-player form and the birth-date ordered listing. */
module ManagePlayer {
  import opened Types
  import opened DocumentStore
  import Balancer

  // ---------------------------------------------------------------------
  // calculateAge

  /** `calculateAge`: the difference of the years, one less while the birth
      month is still ahead in the current year. */
  function DisplayAge(birth: Date, today: Date): (age: int)
    ensures age == Balancer.Age(birth, today.year) || age == Balancer.Age(birth, today.year) - 1
    ensures age == Balancer.Age(birth, today.year) - 1 <==> today.month < birth.month
  {
    var age := today.year - birth.year;
    var monthDiff := today.month - birth.month;
    if monthDiff < 0 then age - 1 else age
  }

  /** The day of the month plays no part in the displayed age. */
  lemma DisplayAgeIgnoresDay(birth: Date, today: Date, birthDay: int, todayDay: int)
    ensures DisplayAge(birth.(day := birthDay), today.(day := todayDay)) == DisplayAge(birth, today)
  {
  }

  /** From one birthday month to the next the displayed age grows by one. */
  lemma DisplayAgeNextYear(birth: Date, today: Date)
    ensures DisplayAge(birth, today.(year := today.year + 1)) == DisplayAge(birth, today) + 1
  {
  }

  // ---------------------------------------------------------------------
  // handleSwitchChange

  /** `{ ...player, active: !player.active }` when the id matches. */
  function Flip(p: Player, id: string): (q: Player)
    ensures q.(active := p.active) == p
    ensures q.active == (if p.id == id then !p.active else p.active)
  {
    if p.id == id then p.(active := !p.active) else p
  }

  /** `players.map(...)` of `handleSwitchChange`. */
  function Toggle(players: seq<Player>, id: string): (r: seq<Player>)
    ensures |r| == |players|
    ensures forall i :: 0 <= i < |r| ==> r[i] == Flip(players[i], id)
  {
    if players == [] then []
    else Toggle(players[..|players| - 1], id) + [Flip(players[|players| - 1], id)]
  }

  /** Toggling the same id twice gives the list back. */
  lemma ToggleTwice(players: seq<Player>, id: string)
    ensures Toggle(Toggle(players, id), id) == players
  {
    assert forall i :: 0 <= i < |players| ==> Flip(Flip(players[i], id), id) == players[i];
  }

  /** `players.find(p => p.id === id)`. */
  function FindById(players: seq<Player>, id: string): (r: Option<Player>)
    ensures r.None? <==> forall i :: 0 <= i < |players| ==> players[i].id != id
    ensures r.Some? ==> exists i :: (0 <= i < |players| && players[i] == r.value
      && r.value.id == id && forall j :: 0 <= j < i ==> players[j].id != id)
  {
    if players == [] then None
    else if players[0].id == id then Some(players[0])
    else
      var r := FindById(players[1..], id);
      if r.Some? then
        var i :| 0 <= i < |players[1..]| && players[1..][i] == r.value && r.value.id == id
          && forall j :: 0 <= j < i ==> players[1..][j].id != id;
        assert players[i + 1] == r.value;
        r
      else r
  }

  /** The flag written back to the store is the opposite of the one shown
      before the switch, for the first player with that id. */
  lemma {:induction false} ToggledFlagWritten(players: seq<Player>, id: string)
    ensures FindById(Toggle(players, id), id).Some? <==> FindById(players, id).Some?
    ensures FindById(players, id).Some? ==>
      FindById(Toggle(players, id), id).value == FindById(players, id).value.(active := !FindById(players, id).value.active)
  {
    if players != [] {
      var t := Toggle(players, id);
      assert t[0] == Flip(players[0], id);
      assert t[1..] == Toggle(players[1..], id);
      ToggledFlagWritten(players[1..], id);
    }
  }

  // ---------------------------------------------------------------------
  // String.prototype.trim

  /** White space and line terminators as `trim` removes them (sections 12.2
      and 12.3 of ECMA-262). */
  predicate IsSpace(c: char)
  {
    || ('\U{9}' <= c <= '\U{D}')            // tab, line feed, vertical tab, form feed, carriage return
    || c == ' ' || c == '\U{A0}' || c == '\U{1680}'
    || ('\U{2000}' <= c <= '\U{200A}')
    || c == '\U{2028}' || c == '\U{2029}' || c == '\U{202F}' || c == '\U{205F}'
    || c == '\U{3000}' || c == '\U{FEFF}'
  }

  /** Length of the run of white space at the start of `s`. */
  function LeadingSpaces(s: string): (n: nat)
    ensures n <= |s|
    ensures forall k :: 0 <= k < n ==> IsSpace(s[k])
    ensures n == |s| || !IsSpace(s[n])
  {
    if s == [] || !IsSpace(s[0]) then 0 else 1 + LeadingSpaces(s[1..])
  }

  /** Length of the run of white space at the end of `s`. */
  function TrailingSpaces(s: string): (n: nat)
    ensures n <= |s|
    ensures forall k :: |s| - n <= k < |s| ==> IsSpace(s[k])
    ensures n == |s| || !IsSpace(s[|s| - 1 - n])
  {
    if s == [] || !IsSpace(s[|s| - 1]) then 0 else 1 + TrailingSpaces(s[..|s| - 1])
  }

  /** `s.trim()`: `s` without its leading and trailing white space. */
  function Trim(s: string): (r: string)
    ensures r == [] || (!IsSpace(r[0]) && !IsSpace(r[|r| - 1]))
    ensures exists i, j :: (0 <= i <= j <= |s| && r == s[i..j]
      && (forall k :: 0 <= k < i ==> IsSpace(s[k]))
      && (forall k :: j <= k < |s| ==> IsSpace(s[k])))
  {
    var rest := s[LeadingSpaces(s)..];
    var r := rest[..|rest| - TrailingSpaces(rest)];
    assert r == s[LeadingSpaces(s)..LeadingSpaces(s) + |r|];
    r
  }

  /** A name trims to nothing exactly when it is all white space. */
  lemma TrimBlank(s: string)
    ensures Trim(s) == [] <==> forall k :: 0 <= k < |s| ==> IsSpace(s[k])
  {
    if Trim(s) == [] {
      var i, j :| 0 <= i <= j <= |s| && Trim(s) == s[i..j]
        && (forall k :: 0 <= k < i ==> IsSpace(s[k]))
        && (forall k :: j <= k < |s| ==> IsSpace(s[k]));
      assert i == j;
    }
  }

  /** Trimming twice trims nothing more. */
  lemma TrimIdempotent(s: string)
    ensures Trim(Trim(s)) == Trim(s)
  {
    var r := Trim(s);
    assert LeadingSpaces(r) == 0;
    assert TrailingSpaces(r) == 0;
  }

  // ---------------------------------------------------------------------
  // The roster screen

  datatype AddOutcome =
    | Added
    | MissingField      // "Veuillez remplir tous les champs !"
    | WriteFailed       // `addDoc` rejected; logged only

  /** `snapshot` lists the documents of `players`, each under its own id. */
  ghost predicate PlayerListing(snapshot: seq<Player>, players: map<string, Player>)
  {
    && (forall k :: 0 <= k < |snapshot| ==> snapshot[k].id in players && players[snapshot[k].id] == snapshot[k])
    && (forall id :: id in players ==> players[id] in snapshot)
  }

  class RosterScreen {
    const store: Store
    var players: seq<Player>
    var name: string             // `nom`
    var birth: Option<Date>      // `dateNaissance`, null until picked
    var sex: string              // `sexe`
    var modalVisible: bool

    ghost predicate Valid()
      reads this, store
    {
      store.Valid()
    }

    constructor (store: Store)
      requires store.Valid()
      ensures Valid() && this.store == store
      ensures players == [] && name == "" && birth.None? && sex == "" && !modalVisible
    {
      this.store := store;
      players, name, birth, sex, modalVisible := [], "", None, "", false;
    }

    /** `addPlayer`: the form is checked for three non-empty fields; the new
        document gets the trimmed name and `active = true` under the fresh id
        the store hands out, and the form is cleared. */
    method AddPlayer(newId: string, writeOk: bool) returns (outcome: AddOutcome)
      requires Valid() && newId !in store.players
      modifies this, store
      ensures Valid()
      ensures outcome == MissingField <==> old(name) == "" || old(birth).None? || old(sex) == ""
      ensures outcome == Added <==> outcome != MissingField && writeOk
      ensures outcome != Added ==> unchanged(this) && unchanged(store)
      ensures outcome == Added ==>
        && store.players == old(store.players)[newId := Player(newId, Trim(old(name)), old(birth).value, old(sex), true)]
        && store.teams == old(store.teams) && store.scores == old(store.scores)
        && name == "" && birth.None? && sex == "" && !modalVisible && players == old(players)
    {
      if !(name != "" && birth.Some? && sex != "") {
        return MissingField;
      }
      if !writeOk {
        return WriteFailed;
      }
      store.players := store.players[newId := Player(newId, Trim(name), birth.value, sex, true)];
      modalVisible, name, birth, sex := false, "", None, "";
      outcome := Added;
    }

    /** `addPlayer` with the name checked after trimming, so that a name made
        of white space is refused like an empty one. */
    method AddPlayerTrimmedCheck(newId: string, writeOk: bool) returns (outcome: AddOutcome)
      requires Valid() && newId !in store.players
      modifies this, store
      ensures Valid()
      ensures outcome == MissingField <==> Trim(old(name)) == "" || old(birth).None? || old(sex) == ""
      ensures outcome == Added <==> outcome != MissingField && writeOk
      ensures outcome != Added ==> unchanged(this) && unchanged(store)
      ensures outcome == Added ==>
        && store.players == old(store.players)[newId := Player(newId, Trim(old(name)), old(birth).value, old(sex), true)]
        && store.players[newId].name != ""
        && store.teams == old(store.teams) && store.scores == old(store.scores)
        && name == "" && birth.None? && sex == "" && !modalVisible && players == old(players)
    {
      if Trim(name) == "" {
        return MissingField;
      }
      outcome := AddPlayer(newId, writeOk);
    }

    /** `delPlayer` once the confirmation dialog is accepted. */
    method DelPlayer(id: string, confirmed: bool, writeOk: bool)
      requires Valid()
      modifies store
      ensures Valid()
      ensures store.players == if confirmed && writeOk then old(store.players) - {id} else old(store.players)
      ensures store.teams == old(store.teams) && store.scores == old(store.scores)
    {
      if confirmed && writeOk {
        store.players := store.players - {id};
      }
    }

    /** `fetchPlayers`: the listed players, ascending by birth date. */
    method FetchPlayers(snapshot: seq<Player>)
      requires Valid() && PlayerListing(snapshot, store.players)
      modifies this
      ensures Valid()
      ensures SortedByBirth(players) && multiset(players) == multiset(snapshot)
      ensures forall p :: p in players <==> p in store.players.Values
      ensures name == old(name) && birth == old(birth) && sex == old(sex) && modalVisible == old(modalVisible)
    {
      players := SortByBirth(snapshot);
      forall p | p in players
        ensures p in store.players.Values
      {
        assert p in multiset(snapshot);
        var k :| 0 <= k < |snapshot| && snapshot[k] == p;
        assert store.players[p.id] == p;
      }
      forall p | p in store.players.Values
        ensures p in players
      {
        var id :| id in store.players && store.players[id] == p;
        assert p in multiset(snapshot);
      }
    }

    /** `handleSwitchChange`: the list on screen is toggled, and the new flag
        of the first player with that id is written to its document, unless
        no player has that id (the write of `undefined` is rejected), the
        document is missing, or the write fails. */
    method HandleSwitchChange(id: string, writeOk: bool)
      requires Valid()
      modifies this, store
      ensures Valid()
      ensures players == Toggle(old(players), id)
      ensures var found := FindById(players, id);
        store.players ==
          if writeOk && found.Some? && id in old(store.players)
          then old(store.players)[id := old(store.players)[id].(active := found.value.active)]
          else old(store.players)
      ensures store.teams == old(store.teams) && store.scores == old(store.scores)
      ensures name == old(name) && birth == old(birth) && sex == old(sex) && modalVisible == old(modalVisible)
    {
      var updated := Toggle(players, id);
      players := updated;
      var found := FindById(updated, id);
      if writeOk && found.Some? && id in store.players {
        store.players := store.players[id := store.players[id].(active := found.value.active)];
      }
    }
  }

  /** A name of two spaces passes the form check and is stored empty. */
  method BlankNameStoredEmpty() returns (outcome: AddOutcome, stored: Player)
    ensures outcome == Added
    ensures stored.name == "" && stored.active
  {
    var store := new Store();
    var screen := new RosterScreen(store);
    screen.name, screen.birth, screen.sex := "  ", Some(Date(2000, 0, 1)), MALE;
    assert Trim("  ") == "" by { TrimBlank("  "); }
    outcome := screen.AddPlayer("p", true);
    stored := store.players["p"];
  }

  /** With the list read from the store, the switch stores the opposite of
      the flag the player had. */
  lemma SwitchFlipsStoredFlag(players: seq<Player>, stored: map<string, Player>, id: string, i: nat)
    requires i < |players| && players[i].id == id
    requires forall k :: 0 <= k < |players| ==> players[k].id in stored && stored[players[k].id] == players[k]
    ensures FindById(Toggle(players, id), id).Some?
    ensures FindById(Toggle(players, id), id).value.active == !stored[id].active
  {
    ToggledFlagWritten(players, id);
    var first := FindById(players, id).value;
    var j :| 0 <= j < |players| && players[j] == first && first.id == id
      && forall j' :: 0 <= j' < j ==> players[j'].id != id;
    assert stored[id] == first;
  }
}

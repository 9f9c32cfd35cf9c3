/** The balanced team generator of app/team/manageTeam.tsx: grouping the
    players by sex, the fresh teams, the year-only age, the choice of the
    least-loaded team, and the interleaved deal over an array of teams. */
module Balancer {
  import opened Types

  /** `calculateAge` of the generator: the birth year only, no month correction. */
  function Age(birth: Date, currentYear: int): int
  {
    currentYear - birth.year
  }

  predicate IsMan(p: Player) { p.sex == MALE }
  predicate IsWoman(p: Player) { p.sex == FEMALE }

  datatype Grouped = Grouped(men: seq<Player>, women: seq<Player>)

  /** `groupAndSortPlayers`: men and women, each ascending by birth date. */
  function GroupAndSortPlayers(players: seq<Player>): (g: Grouped)
    ensures SortedByBirth(g.men) && SortedByBirth(g.women)
    ensures forall p :: multiset(g.men)[p] == if p.sex == MALE then multiset(players)[p] else 0
    ensures forall p :: multiset(g.women)[p] == if p.sex == FEMALE then multiset(players)[p] else 0
    ensures forall p :: p in g.men ==> p.sex == MALE
    ensures forall p :: p in g.women ==> p.sex == FEMALE
  {
    var men := SortByBirth(Filter(players, IsMan));
    var women := SortByBirth(Filter(players, IsWoman));
    assert forall p :: p in men ==> p in multiset(Filter(players, IsMan));
    assert forall p :: p in women ==> p in multiset(Filter(players, IsWoman));
    Grouped(men, women)
  }

  // ---------------------------------------------------------------- names

  function DigitChar(d: nat): char
    requires d < 10
  {
    "0123456789"[d]
  }

  /** The decimal text of `n`, as a template literal prints it. */
  function DecimalText(n: nat): (s: string)
    ensures |s| > 0
    ensures forall i :: 0 <= i < |s| ==> '0' <= s[i] <= '9'
    ensures n < 10 ==> s == [DigitChar(n)]
  {
    if n < 10 then [DigitChar(n)] else DecimalText(n / 10) + [DigitChar(n % 10)]
  }

  /** `Equipe ${i + 1}`. */
  function TeamName(i: nat): string
  {
    "Equipe " + DecimalText(i + 1)
  }

  /** Canonical names of the at most five teams the input allows are distinct. */
  lemma TeamNamesDistinct(i: nat, j: nat)
    requires i < 9 && j < 9 && i != j
    ensures TeamName(i) != TeamName(j)
  {
    assert TeamName(i)[7] == DigitChar(i + 1);
    assert TeamName(j)[7] == DigitChar(j + 1);
  }

  /** Team `i` before the deal. */
  function FreshTeam(i: nat): Team
  {
    Team("", TeamName(i), TeamName(i), [], [], 0, 0, 0)
  }

  /** `Array.from({ length: nbEquipes }, ...)`. */
  function InitialTeams(n: nat): (ts: seq<Team>)
    ensures |ts| == n
    ensures forall i :: 0 <= i < n ==>
      && ts[i].name == TeamName(i) && ts[i].customName == ts[i].name
      && ts[i].men == [] && ts[i].women == []
      && ts[i].ageTotal == 0 && ts[i].totalPlayers == 0 && ts[i].points == 0
  {
    seq(n, i requires 0 <= i => FreshTeam(i))
  }

  // ------------------------------------------------------ least-loaded team

  /** `k` has the fewest players and no earlier team has as few. */
  ghost predicate IsFirstMin(ts: seq<Team>, k: nat)
  {
    && k < |ts|
    && (forall j :: 0 <= j < |ts| ==> ts[k].totalPlayers <= ts[j].totalPlayers)
    && (forall j :: 0 <= j < k ==> ts[j].totalPlayers > ts[k].totalPlayers)
  }

  /** The `reduce` of `distributePlayer`: a left fold that keeps the current
      best and replaces it only on a strictly smaller `totalPlayers`. */
  function LeastLoaded(ts: seq<Team>): (k: nat)
    requires |ts| > 0
    ensures IsFirstMin(ts, k)
  {
    if |ts| == 1 then 0
    else
      var best := LeastLoaded(ts[..|ts| - 1]);
      if ts[|ts| - 1].totalPlayers < ts[best].totalPlayers then |ts| - 1 else best
  }

  /** Only one index is a first minimum. */
  lemma FirstMinUnique(ts: seq<Team>, k: nat, k': nat)
    requires IsFirstMin(ts, k) && IsFirstMin(ts, k')
    ensures k == k'
  {
    var a, b := ts[k].totalPlayers, ts[k'].totalPlayers;
    if k < k' {
      assert false;
    } else if k' < k {
      assert false;
    }
  }

  // ------------------------------------------------------------ one player

  datatype Gender = Men | Women

  /** A player on their way to a team, with the list they go into. */
  datatype Slot = Slot(player: Player, gender: Gender)

  function ListOf(t: Team, g: Gender): seq<Player>
  {
    match g
    case Men => t.men
    case Women => t.women
  }

  /** Sum of the balancing ages of `ps`. */
  function AgeSum(ps: seq<Player>, currentYear: int): int
  {
    if ps == [] then 0
    else AgeSum(ps[..|ps| - 1], currentYear) + Age(ps[|ps| - 1].birth, currentYear)
  }

  lemma AgeSumAppend(ps: seq<Player>, p: Player, currentYear: int)
    ensures AgeSum(ps + [p], currentYear) == AgeSum(ps, currentYear) + Age(p.birth, currentYear)
  {
    assert (ps + [p])[..|ps|] == ps;
  }

  /** The two counters of a team agree with its lists. */
  ghost predicate Consistent(t: Team, currentYear: int)
  {
    && t.totalPlayers == |t.men| + |t.women|
    && t.ageTotal == AgeSum(t.men, currentYear) + AgeSum(t.women, currentYear)
  }

  /** The three updates of manageTeam.tsx:89-91 on the chosen team. */
  function AddToTeam(t: Team, s: Slot, currentYear: int): (u: Team)
    ensures ListOf(u, s.gender) == ListOf(t, s.gender) + [s.player]
    ensures s.gender == Men ==> u.women == t.women
    ensures s.gender == Women ==> u.men == t.men
    ensures u.totalPlayers == t.totalPlayers + 1
    ensures u.ageTotal == t.ageTotal + Age(s.player.birth, currentYear)
    ensures u.name == t.name && u.customName == t.customName && u.id == t.id && u.points == t.points
    ensures Consistent(t, currentYear) ==> Consistent(u, currentYear)
  {
    var age := Age(s.player.birth, currentYear);
    AgeSumAppend(t.men, s.player, currentYear);
    AgeSumAppend(t.women, s.player, currentYear);
    match s.gender
    case Men => t.(men := t.men + [s.player], ageTotal := t.ageTotal + age, totalPlayers := t.totalPlayers + 1)
    case Women => t.(women := t.women + [s.player], ageTotal := t.ageTotal + age, totalPlayers := t.totalPlayers + 1)
  }

  /** `distributePlayer` on the value of the team list. */
  function Assign(ts: seq<Team>, s: Slot, currentYear: int): (r: seq<Team>)
    requires |ts| > 0
    ensures |r| == |ts|
  {
    var k := LeastLoaded(ts);
    ts[k := AddToTeam(ts[k], s, currentYear)]
  }

  /** The teams after dealing `order`, one `distributePlayer` per slot. */
  function Deal(ts: seq<Team>, order: seq<Slot>, currentYear: int): (r: seq<Team>)
    requires |ts| > 0
    ensures |r| == |ts|
  {
    if order == [] then ts
    else Assign(Deal(ts, order[..|order| - 1], currentYear), order[|order| - 1], currentYear)
  }

  // ---------------------------------------------------------- deal order

  function Min(a: int, b: int): int { if a <= b then a else b }
  function Max(a: int, b: int): int { if a >= b then a else b }

  /** Iteration `i` of the deal loop: man `i` if there is one, then woman `i`. */
  function Round(men: seq<Player>, women: seq<Player>, i: nat): seq<Slot>
  {
    (if i < |men| then [Slot(men[i], Men)] else []) + (if i < |women| then [Slot(women[i], Women)] else [])
  }

  /** The slots dealt by the first `i` iterations. */
  function DealOrder(men: seq<Player>, women: seq<Player>, i: nat): seq<Slot>
  {
    if i == 0 then [] else DealOrder(men, women, i - 1) + Round(men, women, i - 1)
  }

  /** Everything the loop deals: `maxPlayers` iterations. */
  function Interleaved(men: seq<Player>, women: seq<Player>): seq<Slot>
  {
    DealOrder(men, women, Max(|men|, |women|))
  }

  /** The players of `order` bound for list `g`, in order. */
  function PlayersOf(order: seq<Slot>, g: Gender): seq<Player>
  {
    if order == [] then []
    else
      PlayersOf(order[..|order| - 1], g)
      + (if order[|order| - 1].gender == g then [order[|order| - 1].player] else [])
  }

  lemma {:induction false} PlayersOfAppend(a: seq<Slot>, b: seq<Slot>, g: Gender)
    ensures PlayersOf(a + b, g) == PlayersOf(a, g) + PlayersOf(b, g)
    decreases |b|
  {
    if b != [] {
      var b' := b[..|b| - 1];
      assert (a + b)[..|a + b| - 1] == a + b';
      PlayersOfAppend(a, b', g);
    } else {
      assert a + b == a;
    }
  }

  function Source(men: seq<Player>, women: seq<Player>, g: Gender): seq<Player>
  {
    match g
    case Men => men
    case Women => women
  }

  lemma RoundPlayers(men: seq<Player>, women: seq<Player>, i: nat, g: Gender)
    ensures PlayersOf(Round(men, women, i), g)
      == if i < |Source(men, women, g)| then [Source(men, women, g)[i]] else []
    ensures |Round(men, women, i)| == (if i < |men| then 1 else 0) + (if i < |women| then 1 else 0)
  {
    var a := if i < |men| then [Slot(men[i], Men)] else [];
    var b := if i < |women| then [Slot(women[i], Women)] else [];
    PlayersOfAppend(a, b, g);
    assert a == [] || a[..0] == [];
    assert b == [] || b[..0] == [];
  }

  lemma PrefixStep(src: seq<Player>, i: nat)
    requires i > 0
    ensures src[..Min(i, |src|)] == src[..Min(i - 1, |src|)] + (if i - 1 < |src| then [src[i - 1]] else [])
  {
    if i - 1 < |src| {
      assert src[..i] == src[..i - 1] + [src[i - 1]];
    }
  }

  /** One more iteration deals one more player of each list that has one left. */
  lemma DealOrderPlayersStep(men: seq<Player>, women: seq<Player>, i: nat, g: Gender)
    requires i > 0
    requires PlayersOf(DealOrder(men, women, i - 1), g) == Source(men, women, g)[..Min(i - 1, |Source(men, women, g)|)]
    ensures PlayersOf(DealOrder(men, women, i), g) == Source(men, women, g)[..Min(i, |Source(men, women, g)|)]
  {
    var src := Source(men, women, g);
    var before := DealOrder(men, women, i - 1);
    var r := Round(men, women, i - 1);
    var tail := if i - 1 < |src| then [src[i - 1]] else [];
    assert DealOrder(men, women, i) == before + r;
    assert PlayersOf(r, g) == tail by {
      RoundPlayers(men, women, i - 1, g);
    }
    assert PlayersOf(before + r, g) == PlayersOf(before, g) + PlayersOf(r, g) by {
      PlayersOfAppend(before, r, g);
    }
    assert src[..Min(i, |src|)] == src[..Min(i - 1, |src|)] + tail by {
      PrefixStep(src, i);
    }
  }

  /** After `i` iterations the loop has dealt the first `i` of each list. */
  lemma {:induction false} DealOrderPlayers(men: seq<Player>, women: seq<Player>, i: nat, g: Gender)
    ensures PlayersOf(DealOrder(men, women, i), g) == Source(men, women, g)[..Min(i, |Source(men, women, g)|)]
  {
    if i > 0 {
      DealOrderPlayers(men, women, i - 1, g);
      DealOrderPlayersStep(men, women, i, g);
    }
  }

  lemma {:induction false} DealOrderLength(men: seq<Player>, women: seq<Player>, i: nat)
    ensures |DealOrder(men, women, i)| == Min(i, |men|) + Min(i, |women|)
  {
    if i > 0 {
      DealOrderLength(men, women, i - 1);
      RoundPlayers(men, women, i - 1, Men);
    }
  }

  /** Every man and every woman is dealt exactly once, in list order. */
  lemma InterleavedPlayers(men: seq<Player>, women: seq<Player>)
    ensures PlayersOf(Interleaved(men, women), Men) == men
    ensures PlayersOf(Interleaved(men, women), Women) == women
    ensures |Interleaved(men, women)| == |men| + |women|
  {
    var n := Max(|men|, |women|);
    DealOrderPlayers(men, women, n, Men);
    DealOrderPlayers(men, women, n, Women);
    DealOrderLength(men, women, n);
    assert men[..|men|] == men && women[..|women|] == women;
  }

  // ------------------------------------------------- counters and partition

  /** Every team stays consistent through the deal. */
  lemma {:induction false} DealConsistent(ts: seq<Team>, order: seq<Slot>, currentYear: int)
    requires |ts| > 0
    requires forall j :: 0 <= j < |ts| ==> Consistent(ts[j], currentYear)
    ensures forall j :: 0 <= j < |ts| ==> Consistent(Deal(ts, order, currentYear)[j], currentYear)
    decreases |order|
  {
    if order != [] {
      DealConsistent(ts, order[..|order| - 1], currentYear);
    }
  }

  /** All players of list `g` over all teams. */
  function AllOf(ts: seq<Team>, g: Gender): multiset<Player>
  {
    if ts == [] then multiset{} else AllOf(ts[..|ts| - 1], g) + multiset(ListOf(ts[|ts| - 1], g))
  }

  /** Sum of `totalPlayers` over all teams. */
  function TotalSum(ts: seq<Team>): int
  {
    if ts == [] then 0 else TotalSum(ts[..|ts| - 1]) + ts[|ts| - 1].totalPlayers
  }

  lemma {:induction false} AddToTeamTotals(ts: seq<Team>, k: nat, s: Slot, currentYear: int, g: Gender)
    requires k < |ts|
    ensures AllOf(ts[k := AddToTeam(ts[k], s, currentYear)], g)
      == AllOf(ts, g) + (if s.gender == g then multiset{s.player} else multiset{})
    ensures TotalSum(ts[k := AddToTeam(ts[k], s, currentYear)]) == TotalSum(ts) + 1
    decreases |ts|
  {
    var u := ts[k := AddToTeam(ts[k], s, currentYear)];
    var n := |ts|;
    if k == n - 1 {
      assert u[..n - 1] == ts[..n - 1];
    } else {
      assert u[..n - 1] == ts[..n - 1][k := AddToTeam(ts[k], s, currentYear)];
      AddToTeamTotals(ts[..n - 1], k, s, currentYear, g);
    }
  }

  /** The deal partitions the dealt players over the teams: men into `men`
      lists, women into `women` lists, one team each, and one player per slot. */
  lemma {:induction false} DealPartition(ts: seq<Team>, order: seq<Slot>, currentYear: int, g: Gender)
    requires |ts| > 0
    ensures AllOf(Deal(ts, order, currentYear), g) == AllOf(ts, g) + multiset(PlayersOf(order, g))
    ensures TotalSum(Deal(ts, order, currentYear)) == TotalSum(ts) + |order|
    decreases |order|
  {
    if order != [] {
      var o' := order[..|order| - 1];
      DealPartition(ts, o', currentYear, g);
      var d := Deal(ts, o', currentYear);
      AddToTeamTotals(d, LeastLoaded(d), order[|order| - 1], currentYear, g);
    }
  }

  lemma {:induction false} FreshTotals(n: nat, g: Gender)
    ensures AllOf(InitialTeams(n), g) == multiset{}
    ensures TotalSum(InitialTeams(n)) == 0
  {
    if n > 0 {
      var ts := InitialTeams(n);
      InitialPrefix(n);
      FreshTotals(n - 1, g);
      assert ListOf(ts[n - 1], g) == [] && ts[n - 1].totalPlayers == 0;
    }
  }

  lemma InitialPrefix(n: nat)
    requires n > 0
    ensures InitialTeams(n)[..n - 1] == InitialTeams(n - 1)
  {
  }

  // ------------------------------------------------------------- balance

  /** The size of team `j` after `k` players were dealt round-robin over `n` teams. */
  function Expected(n: nat, k: nat, j: nat): int
    requires n > 0
  {
    k / n + if j < k % n then 1 else 0
  }

  lemma DivModNext(a: nat, n: nat)
    requires n > 0
    ensures a % n + 1 < n ==> (a + 1) / n == a / n && (a + 1) % n == a % n + 1
    ensures a % n + 1 == n ==> (a + 1) / n == a / n + 1 && (a + 1) % n == 0
  {
    var q, r := a / n, a % n;
    assert a == q * n + r;
    if r + 1 < n {
      DivModUnique(a + 1, n, q, r + 1);
    } else {
      assert a + 1 == (q + 1) * n + 0;
      DivModUnique(a + 1, n, q + 1, 0);
    }
  }

  lemma DivModUnique(a: int, n: nat, q: int, r: int)
    requires n > 0 && a == q * n + r && 0 <= r < n
    ensures a / n == q && a % n == r
  {
    var q', r' := a / n, a % n;
    assert a == q' * n + r';
    var d := q - q';
    assert d * n == r' - r;
    if d >= 1 {
      MulAtLeast(d, n);
    } else if d <= -1 {
      MulAtLeast(-d, n);
    }
  }

  lemma {:induction false} MulAtLeast(d: int, n: nat)
    requires d >= 1
    ensures d * n >= n
    decreases d
  {
    if d > 1 {
      MulAtLeast(d - 1, n);
      assert d * n == (d - 1) * n + n;
    }
  }

  /** In the round-robin pattern the least-loaded team is the next in turn. */
  lemma PatternLeastLoaded(ts: seq<Team>, n: nat, k: nat)
    requires n > 0 && |ts| == n
    requires forall j :: 0 <= j < n ==> ts[j].totalPlayers == Expected(n, k, j)
    ensures LeastLoaded(ts) == k % n
  {
    assert IsFirstMin(ts, k % n);
    FirstMinUnique(ts, LeastLoaded(ts), k % n);
  }

  /** Dealing `order` onto `n` fresh teams fills them round-robin. */
  lemma {:induction false} DealSizes(n: nat, order: seq<Slot>, currentYear: int)
    requires n > 0
    ensures forall j :: 0 <= j < n ==>
      Deal(InitialTeams(n), order, currentYear)[j].totalPlayers == Expected(n, |order|, j)
    decreases |order|
  {
    if order != [] {
      var k := |order| - 1;
      DealSizes(n, order[..k], currentYear);
      var d := Deal(InitialTeams(n), order[..k], currentYear);
      PatternLeastLoaded(d, n, k);
      DivModNext(k, n);
    }
  }

  /** The player in slot `k` goes to team `k % n`. */
  lemma DealDestination(n: nat, order: seq<Slot>, k: nat, currentYear: int)
    requires n > 0 && k < |order|
    ensures LeastLoaded(Deal(InitialTeams(n), order[..k], currentYear)) == k % n
  {
    DealSizes(n, order[..k], currentYear);
    PatternLeastLoaded(Deal(InitialTeams(n), order[..k], currentYear), n, k);
  }

  /** The players of list `g` whose slot index is `j` modulo `n`, in order. */
  function DealtTo(order: seq<Slot>, n: nat, j: nat, g: Gender): seq<Player>
    requires n > 0
  {
    if order == [] then []
    else
      var k := |order| - 1;
      DealtTo(order[..k], n, j, g)
      + (if k % n == j && order[k].gender == g then [order[k].player] else [])
  }

  /** Exactly which players team `j` receives. */
  lemma {:induction false} DealMembers(n: nat, order: seq<Slot>, currentYear: int, j: nat, g: Gender)
    requires n > 0 && j < n
    ensures ListOf(Deal(InitialTeams(n), order, currentYear)[j], g) == DealtTo(order, n, j, g)
    decreases |order|
  {
    if order != [] {
      var k := |order| - 1;
      DealMembers(n, order[..k], currentYear, j, g);
      DealDestination(n, order, k, currentYear);
      assert order[..k][..k] == order[..k];
    }
  }

  /** Sizes differ by at most one and a lower-index team is never smaller. */
  lemma {:induction false} DealBalanced(n: nat, order: seq<Slot>, currentYear: int, i: nat, j: nat)
    requires n > 0 && i <= j < n
    ensures var d := Deal(InitialTeams(n), order, currentYear);
      d[j].totalPlayers <= d[i].totalPlayers <= d[j].totalPlayers + 1
  {
    DealSizes(n, order, currentYear);
  }

  // ------------------------------------------------- the generator itself

  lemma DealSnoc(ts: seq<Team>, order: seq<Slot>, s: Slot, currentYear: int)
    requires |ts| > 0
    ensures Deal(ts, order + [s], currentYear) == Assign(Deal(ts, order, currentYear), s, currentYear)
  {
    assert (order + [s])[..|order|] == order;
  }

  lemma DealOrderStep(men: seq<Player>, women: seq<Player>, i: nat)
    ensures i < |men| && i < |women| ==>
      DealOrder(men, women, i + 1) == DealOrder(men, women, i) + [Slot(men[i], Men)] + [Slot(women[i], Women)]
    ensures i < |men| && i >= |women| ==>
      DealOrder(men, women, i + 1) == DealOrder(men, women, i) + [Slot(men[i], Men)]
    ensures i >= |men| && i < |women| ==>
      DealOrder(men, women, i + 1) == DealOrder(men, women, i) + [Slot(women[i], Women)]
    ensures i >= |men| && i >= |women| ==>
      DealOrder(men, women, i + 1) == DealOrder(men, women, i)
  {
  }

  /** `distributePlayer`: the least-loaded team gets the player, in place;
      every other team is left as it was. */
  method Distribute(teams: array<Team>, s: Slot, currentYear: int)
    requires teams.Length > 0
    modifies teams
    ensures teams[..] == Assign(old(teams[..]), s, currentYear)
  {
    var k := LeastLoaded(teams[..]);
    teams[k] := AddToTeam(teams[k], s, currentYear);
  }

  /** The deal loop: `maxPlayers` iterations, man `i` then woman `i`. */
  method DealPlayers(genTeams: array<Team>, men: seq<Player>, women: seq<Player>, currentYear: int)
    requires genTeams.Length > 0
    modifies genTeams
    ensures genTeams[..] == Deal(old(genTeams[..]), Interleaved(men, women), currentYear)
  {
    ghost var init := genTeams[..];
    ghost var dealt: seq<Slot> := [];
    var maxPlayers := Max(|men|, |women|);
    var i := 0;
    while i < maxPlayers
      invariant 0 <= i <= maxPlayers
      invariant dealt == DealOrder(men, women, i)
      invariant genTeams[..] == Deal(init, dealt, currentYear)
    {
      DealOrderStep(men, women, i);
      if i < |men| {
        Distribute(genTeams, Slot(men[i], Men), currentYear);
        DealSnoc(init, dealt, Slot(men[i], Men), currentYear);
        dealt := dealt + [Slot(men[i], Men)];
      }
      if i < |women| {
        Distribute(genTeams, Slot(women[i], Women), currentYear);
        DealSnoc(init, dealt, Slot(women[i], Women), currentYear);
        dealt := dealt + [Slot(women[i], Women)];
      }
      i := i + 1;
    }
  }

  /** Reading `genTeams[0][gender]` when no team was created throws a TypeError. */
  datatype GenError = NoTeamToFill

  /** `generateTeams`. The two random shuffles are the arguments `shuffledMen`
      and `shuffledWomen`: any rearrangement of the sorted lists. */
  method GenerateTeams(players: seq<Player>, nbTeams: nat, currentYear: int,
                       shuffledMen: seq<Player>, shuffledWomen: seq<Player>)
    returns (r: Result<seq<Team>, GenError>)
    requires multiset(shuffledMen) == multiset(GroupAndSortPlayers(players).men)
    requires multiset(shuffledWomen) == multiset(GroupAndSortPlayers(players).women)
    ensures r.Failure? <==> nbTeams == 0 && |shuffledMen| + |shuffledWomen| > 0
    ensures r.Success? ==> |r.value| == nbTeams
    ensures r.Success? && nbTeams > 0 ==>
      r.value == Deal(InitialTeams(nbTeams), Interleaved(shuffledMen, shuffledWomen), currentYear)
    ensures r.Success? ==> forall j :: 0 <= j < nbTeams ==>
      && Consistent(r.value[j], currentYear)
      && r.value[j].name == TeamName(j) && r.value[j].customName == TeamName(j)
      && r.value[j].points == 0 && r.value[j].id == ""
    ensures r.Success? ==> forall p ::
      && AllOf(r.value, Men)[p] == (if p.sex == MALE then multiset(players)[p] else 0)
      && AllOf(r.value, Women)[p] == (if p.sex == FEMALE then multiset(players)[p] else 0)
    ensures r.Success? ==> TotalSum(r.value) == |shuffledMen| + |shuffledWomen|
    ensures r.Success? ==> forall i, j :: 0 <= i <= j < nbTeams ==>
      r.value[j].totalPlayers <= r.value[i].totalPlayers <= r.value[j].totalPlayers + 1
  {
    var genTeams := new Team[nbTeams](i => FreshTeam(i));
    assert genTeams[..] == InitialTeams(nbTeams);
    var men, women := shuffledMen, shuffledWomen;
    var maxPlayers := Max(|men|, |women|);
    if nbTeams == 0 {
      // With no team, the first `distributePlayer` throws; with nobody to deal
      // the loop does not run and the empty list is returned.
      if maxPlayers > 0 {
        return Failure(NoTeamToFill);
      }
      r := Success([]);
      GeneratedTeamsFacts(players, nbTeams, currentYear, men, women, r.value);
      return;
    }
    DealPlayers(genTeams, men, women, currentYear);
    r := Success(genTeams[..]);
    GeneratedTeamsFacts(players, nbTeams, currentYear, men, women, r.value);
  }

  /** What the deal guarantees about a successful `generateTeams`. */
  lemma GeneratedTeamsFacts(players: seq<Player>, n: nat, currentYear: int,
                            men: seq<Player>, women: seq<Player>, teams: seq<Team>)
    requires multiset(men) == multiset(GroupAndSortPlayers(players).men)
    requires multiset(women) == multiset(GroupAndSortPlayers(players).women)
    requires n > 0 ==> teams == Deal(InitialTeams(n), Interleaved(men, women), currentYear)
    requires n == 0 ==> teams == [] && men == [] && women == []
    ensures |teams| == n
    ensures forall j :: 0 <= j < n ==>
      && Consistent(teams[j], currentYear)
      && teams[j].name == TeamName(j) && teams[j].customName == TeamName(j)
      && teams[j].points == 0 && teams[j].id == ""
    ensures forall p ::
      && AllOf(teams, Men)[p] == (if p.sex == MALE then multiset(players)[p] else 0)
      && AllOf(teams, Women)[p] == (if p.sex == FEMALE then multiset(players)[p] else 0)
    ensures TotalSum(teams) == |men| + |women|
    ensures forall i, j :: 0 <= i <= j < n ==>
      teams[j].totalPlayers <= teams[i].totalPlayers <= teams[j].totalPlayers + 1
  {
    GeneratedShape(n, currentYear, men, women, teams);
    GeneratedPartition(players, n, currentYear, men, women, teams);
  }

  /** The generated teams keep their names, are consistent and balanced. */
  lemma GeneratedShape(n: nat, currentYear: int, men: seq<Player>, women: seq<Player>, teams: seq<Team>)
    requires n > 0 ==> teams == Deal(InitialTeams(n), Interleaved(men, women), currentYear)
    requires n == 0 ==> teams == []
    ensures |teams| == n
    ensures forall j :: 0 <= j < n ==>
      && Consistent(teams[j], currentYear)
      && teams[j].name == TeamName(j) && teams[j].customName == TeamName(j)
      && teams[j].points == 0 && teams[j].id == ""
    ensures forall i, j :: 0 <= i <= j < n ==>
      teams[j].totalPlayers <= teams[i].totalPlayers <= teams[j].totalPlayers + 1
  {
    if n > 0 {
      var order := Interleaved(men, women);
      var init := InitialTeams(n);
      DealConsistent(init, order, currentYear);
      DealNames(init, order, currentYear);
      forall i, j | 0 <= i <= j < n
        ensures teams[j].totalPlayers <= teams[i].totalPlayers <= teams[j].totalPlayers + 1
      {
        DealBalanced(n, order, currentYear, i, j);
      }
    }
  }

  /** The generated teams hold exactly the registered men and women. */
  lemma GeneratedPartition(players: seq<Player>, n: nat, currentYear: int,
                           men: seq<Player>, women: seq<Player>, teams: seq<Team>)
    requires multiset(men) == multiset(GroupAndSortPlayers(players).men)
    requires multiset(women) == multiset(GroupAndSortPlayers(players).women)
    requires n > 0 ==> teams == Deal(InitialTeams(n), Interleaved(men, women), currentYear)
    requires n == 0 ==> teams == [] && men == [] && women == []
    ensures forall p ::
      && AllOf(teams, Men)[p] == (if p.sex == MALE then multiset(players)[p] else 0)
      && AllOf(teams, Women)[p] == (if p.sex == FEMALE then multiset(players)[p] else 0)
    ensures TotalSum(teams) == |men| + |women|
  {
    var g := GroupAndSortPlayers(players);
    if n == 0 {
      assert multiset(g.men) == multiset{} && multiset(g.women) == multiset{};
    } else {
      var order := Interleaved(men, women);
      var init := InitialTeams(n);
      InterleavedPlayers(men, women);
      FreshTotals(n, Men);
      FreshTotals(n, Women);
      DealPartition(init, order, currentYear, Men);
      DealPartition(init, order, currentYear, Women);
    }
  }

  /** The deal never renames a team nor touches its id or points. */
  lemma {:induction false} DealNames(ts: seq<Team>, order: seq<Slot>, currentYear: int)
    requires |ts| > 0
    ensures forall j :: 0 <= j < |ts| ==>
      var d := Deal(ts, order, currentYear)[j];
      d.name == ts[j].name && d.customName == ts[j].customName && d.id == ts[j].id && d.points == ts[j].points
    decreases |order|
  {
    if order != [] {
      DealNames(ts, order[..|order| - 1], currentYear);
    }
  }

  /** Slot `k` of the deal goes to team `k % n` and changes no other team. */
  lemma DealStepAt(n: nat, order: seq<Slot>, k: nat, currentYear: int)
    requires n > 0 && k < |order|
    ensures var before := Deal(InitialTeams(n), order[..k], currentYear);
      Deal(InitialTeams(n), order[..k + 1], currentYear)
        == before[k % n := AddToTeam(before[k % n], order[k], currentYear)]
  {
    assert order[..k + 1][..k] == order[..k];
    DealDestination(n, order, k, currentYear);
  }

  lemma FourSlotsOnTwoTeams(order: seq<Slot>, currentYear: int)
    requires |order| == 4
    ensures var d := Deal(InitialTeams(2), order, currentYear);
      && d[0] == AddToTeam(AddToTeam(FreshTeam(0), order[0], currentYear), order[2], currentYear)
      && d[1] == AddToTeam(AddToTeam(FreshTeam(1), order[1], currentYear), order[3], currentYear)
  {
    var d0 := InitialTeams(2);
    assert order[..0] == [] && order[..4] == order;
    DealStepAt(2, order, 0, currentYear);
    DealStepAt(2, order, 1, currentYear);
    DealStepAt(2, order, 2, currentYear);
    DealStepAt(2, order, 3, currentYear);
  }

  lemma FixtureOrder(m0: Player, m1: Player, m2: Player, w0: Player)
    ensures Interleaved([m0, m1, m2], [w0]) == [Slot(m0, Men), Slot(w0, Women), Slot(m1, Men), Slot(m2, Men)]
  {
    assert Round([m0, m1, m2], [w0], 0) == [Slot(m0, Men), Slot(w0, Women)];
    assert Round([m0, m1, m2], [w0], 1) == [Slot(m1, Men)];
    assert Round([m0, m1, m2], [w0], 2) == [Slot(m2, Men)];
    assert DealOrder([m0, m1, m2], [w0], 1) == [Slot(m0, Men), Slot(w0, Women)];
    assert DealOrder([m0, m1, m2], [w0], 2) == [Slot(m0, Men), Slot(w0, Women), Slot(m1, Men)];
  }

  /** The fixture of three men born 2000, 2001 and 2002 and one woman born 1999,
      dealt onto two teams without shuffling. */
  lemma TwoTeamsFixture(currentYear: int)
    ensures
      var m0 := Player("m0", "m0", Date(2000, 0, 1), MALE, true);
      var m1 := Player("m1", "m1", Date(2001, 0, 1), MALE, true);
      var m2 := Player("m2", "m2", Date(2002, 0, 1), MALE, true);
      var w0 := Player("w0", "w0", Date(1999, 0, 1), FEMALE, true);
      var d := Deal(InitialTeams(2), Interleaved([m0, m1, m2], [w0]), currentYear);
      && d[0].men == [m0, m1] && d[0].women == []
      && d[1].men == [m2] && d[1].women == [w0]
      && d[0].ageTotal == (currentYear - 2000) + (currentYear - 2001)
      && d[1].ageTotal == (currentYear - 2002) + (currentYear - 1999)
  {
    var m0 := Player("m0", "m0", Date(2000, 0, 1), MALE, true);
    var m1 := Player("m1", "m1", Date(2001, 0, 1), MALE, true);
    var m2 := Player("m2", "m2", Date(2002, 0, 1), MALE, true);
    var w0 := Player("w0", "w0", Date(1999, 0, 1), FEMALE, true);
    FixtureOrder(m0, m1, m2, w0);
    FourSlotsOnTwoTeams(Interleaved([m0, m1, m2], [w0]), currentYear);
  }
}

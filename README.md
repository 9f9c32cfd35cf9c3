# Tournament app core in Dafny

This project models the sequential logic of a small React Native tournament
app ("BingOlympiades"). The app stores players, teams, games and scores in a
remote document store. The model covers three screens:

- **Team screen** (`app/team/manageTeam.tsx`). Active players are split by
  sex (`"H"`, `"F"`) and each group is sorted by birth date. `nbEquipes`
  fresh teams are created. Both groups are shuffled, then dealt in
  interleaved order (man *i*, then woman *i*). Each player goes to the first
  team with the fewest players. When teams are on screen, the wrapper
  `createBalancedTeams` deletes the old teams and every score before saving
  the new ones. The team-count field accepts 1..5 only.
- **Home screen** (`app/index.tsx`). Score documents become a
  game → team → points table. The table is folded into per-team totals,
  games played and a running maximum. `updateScore` clamps the new score at
  0. It deletes the document when the result is 0 and writes it otherwise. A
  busy flag drops any second call while one is pending. The ±1 buttons, the
  ±3/±5/±10 presets and the typed amount all feed `updateScore`.
- **Roster screen** (`app/player/managePlayer.tsx`). It covers the displayed
  age (year difference, minus one before the birth month), the active switch,
  the add-player form check with its trimmed name, and the listing in
  birth-date order.

## How it is modelled

- **`Types`** holds the records of `types/player.ts` and the shared list
  operations.
  - Filtering keeps the elements in their original order.
  - The birth-date sort is an insertion sort, proved sorted and a
    permutation of its input.
  - A birth date is a `(year, month, day)` triple. Lexicographic order
    stands in for `Date.parse`.
- **`DocumentStore.Store`** is a class with the three collections the core
  touches: `players`, `teams` and `scores`. Its invariant says every stored
  score is positive and filed under `ScoreId(game, team)`.
- **`Balancer`** is the generator.
  - The teams are an `array<Team>` mutated in place. `Distribute` does one
    `distributePlayer` call and `DealPlayers` runs the `for` loop. Both are
    proved against the pure fold `Deal` over the interleaved order.
  - The partition, balance and tie-break properties are lemmas about
    `Deal`.
  - The shuffle is an arbitrary permutation passed in: `shuffledMen`, then
    `shuffledWomen`, whose multisets must equal those of the sorted groups.
  - The current year is a parameter.
- **`ManageTeam.TeamScreen`** holds the component's state:
  - the active players;
  - the teams on screen;
  - `nbEquipes`, the error text and the modal flag;
  - a reference to the store.

  Its store writes (`delTeams`, `saveTeams`) always succeed in the model.
  The roster and score screens instead take each write's outcome as a
  parameter (`writeOk`, `ok`).
- **`Scores`**:
  - `processScores` and `calculateTotalScores` are methods with loops. The
    object iteration in `calculateTotalScores` picks keys in an arbitrary
    order (`:|`). It is specified by a sum over a set of games, which cannot
    depend on that order.
  - `ScoreBoard` is a class with the busy flag and the pending write.
    `UpdateScore` is the part of `updateScore` before the `await`;
    `CompleteUpdate(ok)` is the part after it.
- **`ManagePlayer.RosterScreen`** holds the form fields and the roster.
  `Trim` follows the white-space and line-terminator sets of sections 12.2
  and 12.3 of ECMA-262.

Two edge cases of `createBalancedTeams` (`app/team/manageTeam.tsx:19-35`)
shape the model:

- **Empty player pool.** With no active player the function returns at
  once (:20-23): nothing is generated, deleted or saved.
- **Team count of 0.** The count is 0 initially and after any bad entry. When
  teams are on screen, the old teams and all scores are deleted first
  (:24-25). `generateTeams` then throws a `TypeError` at `genTeams[0]` (:89)
  when any man or woman is active, so nothing new is saved. This is the
  first finding below. With players present but none marked `"H"` or `"F"`,
  it saves an empty list instead.

## Model

| member | source | states |
|---|---|---|
| Types.Filter | app/team/manageTeam.tsx:105-111 | every kept player passes the test, and each player occurs as often as in the input when kept and not at all otherwise |
| Types.InsertByBirth | app/team/manageTeam.tsx:107 | inserting into a birth-sorted list keeps it sorted and adds exactly that player |
| Types.SortByBirth | app/player/managePlayer.tsx:85 | the result is ascending by birth date and a permutation of the input |
| Balancer.GroupAndSortPlayers | app/team/manageTeam.tsx:104-114 | the men are exactly the `"H"` players and the women exactly the `"F"` players, with multiplicity and each list ascending by birth date; players of any other sex are in neither |
| Balancer.DecimalText | app/team/manageTeam.tsx:63-64 | the text of `i + 1` in the team name is a non-empty run of digits, the digit itself below 10 |
| Balancer.TeamNamesDistinct | app/team/manageTeam.tsx:63-64 | two different teams (fewer than ten) get different canonical names |
| Balancer.InitialTeams | app/team/manageTeam.tsx:61-70 | exactly `nbEquipes` teams; team i is named "Equipe i+1" in both `nom` and `customNom`, with no players and `ageTotal`, `totalPlayers` and `points` all 0 |
| Balancer.LeastLoaded | app/team/manageTeam.tsx:85-87 | the chosen team has no more players than any other, and every earlier team has strictly more (the strict `<` keeps the lowest index on a tie) |
| Balancer.FirstMinUnique | app/team/manageTeam.tsx:85-87 | the least-loaded choice is unique, so the tie-break is deterministic |
| Balancer.AddToTeam | app/team/manageTeam.tsx:89-91 | the player is appended to the list of their sex and the other list is unchanged; `totalPlayers` grows by 1 and `ageTotal` by the player's age; names, id and points are unchanged; the team invariant is kept |
| Balancer.AgeSumAppend | app/team/manageTeam.tsx:72-73 | a list's age sum grows by the appended player's year-only age |
| Balancer.Assign | app/team/manageTeam.tsx:85-91 | assigning one player keeps the number of teams |
| Balancer.Distribute | app/team/manageTeam.tsx:82-92 | the array after one `distributePlayer` is `Assign` of the old array: only the least-loaded team changes, by `AddToTeam` |
| Balancer.Deal | app/team/manageTeam.tsx:94-98 | dealing keeps the number of teams |
| Balancer.RoundPlayers | app/team/manageTeam.tsx:96-97 | loop iteration i deals man i when there is one and woman i when there is one, nothing else |
| Balancer.DealOrderStep | app/team/manageTeam.tsx:95-98 | each iteration of the deal loop appends man i, then woman i, when present |
| Balancer.DealOrderPlayers | app/team/manageTeam.tsx:94-98 | after i iterations the men dealt are the first i men, and likewise the women |
| Balancer.DealOrderLength | app/team/manageTeam.tsx:94-98 | after i iterations, min(i, men) + min(i, women) players have been dealt |
| Balancer.InterleavedPlayers | app/team/manageTeam.tsx:94-98 | running to `maxPlayers` deals every man and every woman, in list order, exactly once |
| Balancer.DealSnoc | app/team/manageTeam.tsx:94-98 | dealing one more player is one more `Assign` |
| Balancer.DealConsistent | app/team/manageTeam.tsx:72-73 | every step keeps `totalPlayers == |hommes| + |femmes|` and `ageTotal` equal to the age sum of the members |
| Balancer.AddToTeamTotals | app/team/manageTeam.tsx:89-91 | one assignment adds the player to the multiset of their list kind and adds 1 to the sum of `totalPlayers` |
| Balancer.DealPartition | app/team/manageTeam.tsx:94-98 | the teams' men (women) after the deal are those before plus the men (women) dealt, as multisets; the `totalPlayers` sum grows by the number dealt |
| Balancer.FreshTotals | app/team/manageTeam.tsx:61-70 | the fresh teams hold nobody |
| Balancer.PatternLeastLoaded | app/team/manageTeam.tsx:85-87 | when the first k mod n teams hold one player more than the rest, the least-loaded team is team k mod n |
| Balancer.DealSizes | app/team/manageTeam.tsx:85-98 | after k deals team j holds k div n players, plus one when j < k mod n |
| Balancer.DealDestination | app/team/manageTeam.tsx:85-98 | the k-th dealt player (0-based) goes to team k mod n |
| Balancer.DealStepAt | app/team/manageTeam.tsx:85-98 | the k-th deal changes team k mod n by `AddToTeam` and no other team |
| Balancer.DealMembers | app/team/manageTeam.tsx:85-98 | team j's list holds exactly the players of that sex at deal positions congruent to j mod n, in deal order |
| Balancer.DealBalanced | app/team/manageTeam.tsx:85-98 | team sizes differ by at most 1 and a lower-index team is never smaller |
| Balancer.DealNames | app/team/manageTeam.tsx:61-70 | dealing never changes a team's names, id or points |
| Balancer.DealPlayers | app/team/manageTeam.tsx:94-98 | the deal loop leaves the array equal to `Deal` of the initial teams over the interleaved order |
| Balancer.GenerateTeams | app/team/manageTeam.tsx:58-101 | fails exactly when there is no team and someone to deal; otherwise exactly `nbEquipes` teams, each consistent, canonically named, with points 0; every man and every woman in exactly one team, in the list of their sex; the `totalPlayers` sum equals the number dealt; sizes balanced |
| Balancer.GeneratedTeamsFacts | app/team/manageTeam.tsx:58-101 | the facts above for the deal over any permutation of the sorted groups |
| Balancer.FourSlotsOnTwoTeams | app/team/manageTeam.tsx:85-98 | four players on two teams go 0, 1, 0, 1 |
| Balancer.FixtureOrder | app/team/manageTeam.tsx:94-98 | three men and one woman are dealt man 0, woman 0, man 1, man 2 |
| Balancer.TwoTeamsFixture | app/team/manageTeam.tsx:58-101 | men born 2000, 2001 and 2002 and a woman born 1999, unshuffled, on two teams: team 1 gets men 0 and 1, team 2 gets man 2 and the woman, with the stated age totals |
| ManageTeam.TeamCountInput | app/team/manageTeam.tsx:264-277 | a count within 1..5 is taken and clears the error; any other number resets it to 0 with an error; NaN changes nothing; the count never leaves 0..5 |
| ManageTeam.TeamScreen.OnTeamCountText | app/team/manageTeam.tsx:264-277 | the field's state after typing is `TeamCountInput` of the old state |
| ManageTeam.TeamScreen.FetchActivePlayers | app/team/manageTeam.tsx:37-56 | the pool is the listed players with `active` set, in listing order |
| ManageTeam.TeamScreen.FetchTeams | app/team/manageTeam.tsx:158-160 | the teams on screen are the stored ones |
| ManageTeam.TeamScreen.DelTeams | app/team/manageTeam.tsx:139-154 | all teams and all scores are deleted; players are kept |
| ManageTeam.TeamScreen.SaveTeams | app/team/manageTeam.tsx:116-137 | one team document per generated team is added; nothing else changes |
| ManageTeam.TeamScreen.CreateBalancedTeams | app/team/manageTeam.tsx:19-35 | an empty pool changes nothing; otherwise the old teams and all scores are deleted when teams are shown; a count of 0 with someone to deal throws after that deletion and leaves the screen as it was; on success the store holds the new teams, which are read back, the count resets to 0 and the modal closes; the store's players and the error text are never changed |
| ManageTeam.TeamScreen.Regenerate | app/team/manageTeam.tsx:27-34 | generate, save and read back, reset the count and close the modal; a throw leaves screen and store as they were; players, scores and the error text are kept |
| ManageTeam.TeamScreen.CreateBalancedTeamsChecked | app/team/manageTeam.tsx:19-35 | corrected guard: an empty pool or a count of 0 is refused with screen and store untouched; otherwise the old teams and scores are replaced by a complete new set of `nbEquipes` teams, read back, with the count reset and the modal closed; the store's players and the error text are never changed |
| ManageTeam.ZeroCountWipesStore | app/team/manageTeam.tsx:19-27 | one active man, one team shown, one score stored, count 0: the call throws and leaves no team and no score |
| Scores.Put | app/index.tsx:36-41 | one record sets its pair to its points, creating the game's row when missing; no other entry changes |
| Scores.PutKeys | app/index.tsx:36-41 | after one more record, every game key and every (game, team) pair present is one some record mentions |
| Scores.PutLast | app/index.tsx:36-41 | after one more record, the last record about each pair still holds its points |
| Scores.ProcessScores | app/index.tsx:33-44 | a game is a key iff some record mentions it; a pair is present iff some record is about it; its points are those of the last such record; all entries are positive when all records are |
| Scores.LastMention | app/index.tsx:36-41 | every mentioned pair has a last mention |
| Scores.SumForRemove | app/index.tsx:89-91 | a team's total over a set of games does not depend on the order the games are taken |
| Scores.SumForAdd | app/index.tsx:89-92 | folding one more game adds its entry to the total and the game to the team's games |
| Scores.AddEntry | app/index.tsx:90-96 | one entry adds its points to its team's total and 1 to its games played; the maximum follows the new total when it is larger |
| Scores.AddGame | app/index.tsx:90-97 | one game adds each of its entries to its team, keeps the counters' key sets equal and the maximum bounding every total, and, with non-negative points, keeps the maximum 0 or attained |
| Scores.FoldStep | app/index.tsx:89-98 | after any number of games, the totals are the sums and the games played the counts over the games folded so far |
| Scores.CalculateTotalScores | app/index.tsx:84-101 | each team's total is the sum of its entries over all games; its games played are the number of games with an entry for it; a team without entries is absent from both maps; the maximum is at least 0 and bounds every total; with no negative entry it is 0 or the largest total |
| Scores.ScoreWrite | app/index.tsx:55-65 | the write targets `g_t`; it is a delete exactly when the new score is at most 0, and otherwise sets the document to the new score |
| Scores.Apply | app/index.tsx:58-65 | a delete removes the id and an upsert sets it; no other id changes |
| Scores.ScoreWriteFiled | app/index.tsx:56-65 | the write never stores zero or a negative number, and files the document under its own pair |
| Scores.ApplyKeepsFiled | app/index.tsx:56-65 | the store keeps every score positive and correctly filed across writes |
| Scores.ZeroAfterUpsert | app/index.tsx:56-65 | writing a score and then 0 leaves the pair absent, as if never scored |
| Scores.ButtonWrite | app/index.tsx:217-311 | every button (±1, the ±3/±5/±10 presets, the typed amount) writes to `g_t`: a delete exactly when the shown score (`?? 0`) moved by the button's signed step is at most 0, otherwise exactly that moved score |
| Scores.MinusOnAbsent | app/index.tsx:217 | the minus button on an absent score deletes nothing that exists: the store is unchanged |
| Scores.NegativePresetFloors | app/index.tsx:266-286 | a negative preset removes the document exactly when the step reaches the current score, and otherwise lowers it by the step |
| Scores.ScoreModalInput | app/index.tsx:299-309 | a typed number of at least 1 is taken and clears the error; a smaller one gives 0 with an error; NaN changes nothing |
| Scores.ScoreBoard.UpdateScore | app/index.tsx:46-56 | while busy nothing changes; otherwise the flag is set and the clamped write is pending |
| Scores.ScoreBoard.Press | app/index.tsx:217-311 | a button press issues `updateScore` with the button's target unless busy, in which case nothing changes; the table, totals, games played and maximum are kept until the next refresh |
| Scores.ScoreBoard.CompleteUpdate | app/index.tsx:58-81 | the write reaches the store only on success; the flag is cleared either way |
| Scores.ScoreBoard.Refresh | app/index.tsx:68-72 | after a refresh, a pair has an entry iff its document is stored, the entry is that document's positive points, and the totals, games played and maximum are those of the table |
| Scores.RefreshedTable | app/index.tsx:33-44 | on a listing of the store, the table holds exactly the stored pairs with their stored points |
| Scores.StoredIsMentioned | app/index.tsx:36-41 | a stored document is mentioned by the listing |
| Scores.MentionIsStored | app/index.tsx:36-41 | a listed document is the one stored under its pair, with positive points |
| ManagePlayer.DisplayAge | app/player/managePlayer.tsx:110-115 | the displayed age is the generator's year-only age, or one less exactly when the current month is before the birth month |
| ManagePlayer.DisplayAgeIgnoresDay | app/player/managePlayer.tsx:110-115 | the day of the month never matters |
| ManagePlayer.DisplayAgeNextYear | app/player/managePlayer.tsx:110-115 | the same date a year later shows one year more |
| ManagePlayer.Flip | app/player/managePlayer.tsx:93-95 | only `active` can change, and it flips exactly when the id matches |
| ManagePlayer.Toggle | app/player/managePlayer.tsx:93-95 | same length and order; each player is flipped when its id matches and otherwise unchanged |
| ManagePlayer.ToggleTwice | app/player/managePlayer.tsx:93-95 | toggling the same id twice restores the list |
| ManagePlayer.FindById | app/player/managePlayer.tsx:101 | none exactly when no player has the id; otherwise the first player with it |
| ManagePlayer.ToggledFlagWritten | app/player/managePlayer.tsx:93-101 | the player found after the toggle is the first match before it, with `active` flipped |
| ManagePlayer.SwitchFlipsStoredFlag | app/player/managePlayer.tsx:92-102 | with the roster read from the store, the flag written is the opposite of the stored one |
| ManagePlayer.LeadingSpaces | app/player/managePlayer.tsx:26 | the length of the leading white-space run |
| ManagePlayer.TrailingSpaces | app/player/managePlayer.tsx:26 | the length of the trailing white-space run |
| ManagePlayer.Trim | app/player/managePlayer.tsx:26 | the result is a slice of the name with only white space cut at both ends, and neither end of it is white space |
| ManagePlayer.TrimBlank | app/player/managePlayer.tsx:20-26 | a name trims to nothing exactly when it is all white space |
| ManagePlayer.TrimIdempotent | app/player/managePlayer.tsx:26 | trimming twice equals trimming once |
| ManagePlayer.RosterScreen.AddPlayer | app/player/managePlayer.tsx:19-43 | refused exactly when name, date or sex is empty; on a successful write the store gains the player under the fresh id with the trimmed name and `active = true`, and the form is cleared; a refusal or a failed write changes nothing |
| ManagePlayer.RosterScreen.AddPlayerTrimmedCheck | app/player/managePlayer.tsx:19-43 | corrected check: refused, with nothing changed, when the trimmed name is empty or the date or sex is missing; on a successful write the player is stored with its non-empty trimmed name, teams and scores are kept, and the form is cleared |
| ManagePlayer.BlankNameStoredEmpty | app/player/managePlayer.tsx:20-30 | a name of two spaces passes the check and the player is stored with an empty name |
| ManagePlayer.RosterScreen.DelPlayer | app/player/managePlayer.tsx:45-70 | a confirmed and successful delete removes exactly that id |
| ManagePlayer.RosterScreen.FetchPlayers | app/player/managePlayer.tsx:72-90 | the roster is ascending by birth date, a permutation of the listing, and holds exactly the stored players |
| ManagePlayer.RosterScreen.HandleSwitchChange | app/player/managePlayer.tsx:92-108 | the list is toggled; the store's flag takes the new value of the first match, unless the id is missing from the list or the store, or the write fails |

## Left out

- The remote store is an abstract set of maps: no network, latency, queries
  or document metadata. Each write's success is a parameter. A failed
  `delTeams` or `saveTeams` is not modelled; in the code these log and go
  on.
- Partial failures of the `Promise.all` fan-out in `delTeams` are not
  modelled. Deletion is all or nothing here.
- Concurrency between `updateScore` calls is not modelled. The busy flag is
  a sequential no-op guard.
- The `Math.random` comparator shuffle is an arbitrary permutation argument.
- `Date` parsing and serialisation are replaced by integer triples. The
  midnight reset in `addPlayer` is not modelled.
- `Number()` on text is `NumberInput` over integers. Fractional input such
  as `2.5` is not modelled.
- The `toString` of `nbEquipes` fed back into the field is not modelled.
- `hooks/useFetchTeams.ts` sorts the fetched teams with `localeCompare`.
  The model reads teams back in stored order.
- The team documents written by `saveTeams` keep only `{id, nom,
  dateNaissance}` of each player and carry a `createdAt` stamp. The model
  stores the teams as generated, and the ids the store assigns are not
  modelled.
- `ScoreId` is not injective for ids that contain `_`. The model does not
  exclude such collisions; `Refresh` only speaks of documents filed under
  their own pair.
- Balancer.Age: no contract of its own. It is the year-only age
  (`currentYear - birthYear`) used by `AddToTeam`, `DealConsistent` and
  `DisplayAge`.
- Types.SortByBirth: stability, i.e. that equal birth dates keep their
  listing order as the engine's stable `sort` does, is not proved.
- Balancer.Deal: the contract states only length preservation. What the deal
  does is stated through `DealSizes`, `DealMembers`, `DealPartition` and
  `DealConsistent`.
- Balancer.Assign: the contract states only length preservation. The change
  itself is stated by `DealStepAt` and `Distribute`.
- The `components/TeamRanking.tsx` progress bar and the average-age display
  are left out, as floating point for display; the average divides by zero
  for an empty team.
- The team renaming `updateCustomNom` and `handleEdit` are left out, as UI
  text editing outside the balancer.
- `generateTeamColor`, the header lock, the game screen, navigation and all
  JSX are left out, as presentation.
- The refresh each write starts is a separate call in the model: the
  `fetchPlayers()` after `addPlayer` (`app/player/managePlayer.tsx:36`) and
  after `delPlayer` (:61) is `RosterScreen.FetchPlayers`, and the
  `fetchScores`/`fetchTeams` after `updateScore` (`app/index.tsx:68-75`) is
  `ScoreBoard.Refresh`. `AddPlayer`, `DelPlayer` and `CompleteUpdate` state
  the screen as it is before that refresh lands. `Regenerate` does chain
  `FetchTeams`.
- Failed reads are not modelled. A failed `fetchTeams` returns `undefined`,
  so the screen's teams become `[]` (`app/team/manageTeam.tsx:31`) and the
  next regeneration skips the wipe. A failed `fetchScores` empties the
  table (`app/index.tsx:69`). The model's reads always return the store's
  contents.
- Logging through `console` and `alert` is left out. In the model, an alert
  is the `MissingField` outcome.

## Findings

| source | as written | input that shows it | evidently intended | confidence | as-written member | corrected member |
|---|---|---|---|---|---|---|
| app/team/manageTeam.tsx:19-27 | `createBalancedTeams` deletes every team and score before `generateTeams` runs. With `nbEquipes == 0`, `genTeams[0]` is undefined and the first `distributePlayer` throws. | One active man, one team on screen, one stored score, count left at 0 (the field resets to 0 on any bad entry and the Générer button stays enabled). | Refuse a count outside 1..5 before touching the store, so that a regeneration either leaves everything in place or replaces it with a full new set. | high, not executed | ManageTeam.ZeroCountWipesStore | ManageTeam.TeamScreen.CreateBalancedTeamsChecked |
| app/player/managePlayer.tsx:20-26 | The form checks the untrimmed `nom` and stores `nom.trim()`. | A name of two spaces with a date and a sex: the check passes and the player is stored with the name `""`. | Check the trimmed name, so that no player is stored without a name. | medium, not executed | ManagePlayer.BlankNameStoredEmpty | ManagePlayer.RosterScreen.AddPlayerTrimmedCheck |

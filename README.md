# Pokemon team builder: the team container

The page lets a user search the PokeAPI catalog by name and build a team
of up to six Pokemon. The only stateful logic is the team itself: an ordered
list of Pokemon records with at most six entries and no two sharing an `id`.
Two operations change it:

- **add** checks capacity first, then duplicates, then appends. It reports
  "Team is full! Remove a Pokemon first.", "This Pokemon is already on your
  team!" or the empty message.
- **remove** rebuilds the list without every member that has the given id.

The logic exists twice. `src/teamManager.ts` exports it with an error
callback. `src/main.ts` has an inline copy, which is the one the page runs.
That copy also redraws the team and calls `showError`. Both are modelled.

Files:

- `pokemon.dfy` (module `PokemonTypes`): the `Pokemon` record of `src/types.ts`.
- `roster.dfy` (module `Roster`): the logic both copies share.
  - `OnTeam` is `team.some(p => p.id === id)`.
  - `Without` is `team.filter(p => p.id !== id)`.
  - It holds the two messages, the capacity 6 and the invariant
    `RosterInvariant` (at most six members, pairwise distinct ids).
  - Its lemmas prove the properties of removal and of appending.
- `team_manager.dfy` (module `TeamManager`): class `TeamManager`.
  - The module-level `team` array becomes a `seq` field.
  - The message passed to `showErrorFn` becomes `AddToTeam`'s result.
- `main_page.dfy` (module `MainPage`): class `Page`, the copy in `src/main.ts`.
  - Calls to `updateTeamDisplay()` and `showError(message)` are opaque
    notifications. They are recorded in order in `log`.
  - A redraw records the count and the cards it draws from `team`.
  - `Valid()` says that the team invariant holds. It also says that the
    last redraw shows the current team and its size.
- `scenarios.dfy` (module `Scenarios`): client methods that rely only on the
  contracts above. They cover two adds in insertion order, a duplicate add,
  an add to a full team, and the page counter after a remove.

## Model

| member | source | states |
|---|---|---|
| Roster.OnTeam | src/teamManager.ts:13 | the membership test holds exactly when some position of the team holds a Pokemon with that id |
| Roster.Without | src/teamManager.ts:24 | the filtered team is no longer than the team, keeps exactly the members whose id differs, and has no member with the removed id |
| Roster.WithoutAppend | src/teamManager.ts:24 | filtering distributes over concatenation, so the kept members stay in their original relative order |
| Roster.WithoutAbsent | src/teamManager.ts:24 | removing an id that no member has leaves the team unchanged element for element |
| Roster.WithoutIdempotent | src/teamManager.ts:24 | removing the same id twice equals removing it once |
| Roster.WithoutPresent | src/teamManager.ts:24 | on a team with distinct ids, removing the id at position k gives the team without position k, with one member fewer |
| Roster.ConsDistinct | src/teamManager.ts:13-18 | putting a Pokemon in front of a team keeps ids distinct exactly when its id is not yet on the team and the team's ids are distinct |
| Roster.WithoutKeepsDistinct | src/teamManager.ts:24 | removal never creates two members with the same id |
| Roster.WithoutKeepsInvariant | src/teamManager.ts:24 | removal preserves the capacity bound and id uniqueness |
| Roster.AppendKeepsInvariant | src/teamManager.ts:8-18 | appending after both checks pass preserves the capacity bound and id uniqueness |
| Roster.RemoveUndoesAdd | src/teamManager.ts:18-24 | removing a Pokemon's id right after it was appended gives back the team as it was before the add |
| TeamManager.TeamManager.constructor | src/teamManager.ts:4 | the team starts empty, which satisfies the invariant |
| TeamManager.TeamManager.AddToTeam | src/teamManager.ts:7-20 | a team of length six or more is unchanged and reports "full", even if the id is already on it; otherwise a duplicate id leaves the team unchanged and reports "already on your team"; otherwise the Pokemon is appended at the end and the message is empty; the invariant is preserved |
| TeamManager.TeamManager.RemoveFromTeam | src/teamManager.ts:23-25 | the new team is the filter of the old one by id, and the invariant is preserved |
| MainPage.Page.constructor | src/main.ts:17 | the team starts empty and nothing has been drawn |
| MainPage.Page.UpdateTeamDisplay | src/main.ts:107-111 | a redraw shows the current team and its length as the count, and leaves the team alone |
| MainPage.Page.ShowError | src/main.ts:140-143 | showing a message leaves the team and what the team display shows unchanged |
| MainPage.Page.AddToTeam | src/main.ts:84-98 | a full team only shows "full" and returns without a redraw; otherwise a duplicate only shows "already on your team"; otherwise the Pokemon is appended, the team is redrawn with its new count and the banner is cleared, in that order; the invariant and "the display shows the team and its size" are preserved |
| MainPage.Page.RemoveFromTeam | src/main.ts:101-104 | the team becomes the filter of the old one by id and is redrawn with its new count; the invariant is preserved |

## Left out

- Fetching a Pokemon (`fetchPokemon` in src/api.ts and src/main.ts:44-55) is left out. It is a network request with JSON field projection from a remote schema the model cannot see.
- The search handler (src/main.ts:26-41) is left out: its `trim`/`toLowerCase` normalisation, its non-empty guard, the loading spinner and async ordering. This is UI orchestration around the network call. One consequence: a failed search shows an error but does not clear the previous result, so that result's add button stays live.
- DOM work is left out: cloning templates, type badges, event listeners and the banner's visibility toggle. `UpdateTeamDisplay` records only the count and the cards it draws. `ShowError` records only the message.
- The page markup (index.html) is not part of this model. Before the first redraw, the page is taken to show an empty team and a count of 0.
- Ids are modelled as mathematical integers. JavaScript number quirks in `===` (NaN, fractional ids) are not modelled.
- `team` in src/teamManager.ts is an exported array. Code outside the module could push to it directly. The model has no such aliasing: only the two methods change the team.
- TeamManager.TeamManager.AddToTeam: the callback `showErrorFn` is called exactly once on every path. The model returns that message rather than calling a function.

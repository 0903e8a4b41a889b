# Sports day scheduler — a Dafny model

This project models the match-pairing engine of a school sports-day
application, a single React component (`src/App.jsx`). Its state is a list of
registered students, a list of two-player matches, a registration form, a
schedule form, the id of the student being edited and a participant filter.
The model keeps that state in a class, `AppState.App`, with one method per
event handler. It recomputes the scheduler's derived data from the current
state:

- the category of a class number (`getCategory`);
- the eligible pool of the selected sport (`eligiblePlayers`): students
  registered for it who play in none of its matches, whatever their status;
- the sorted, distinct `"<category> - <gender>"` group keys of that pool
  (`availableCategoriesForSport`);
- the pool members of the selected group (`filteredPlayersForMatch`).

The handlers schedule a match (`scheduleMatch`), declare a winner
(`declareWinner`), delete a match (`deleteMatch`), delete a student together
with their matches (`deleteStudent`), toggle a sport on the registration form
with a cap of three (`toggleSportSelection`), and create or edit a student
(`handleStudentSubmit`).

Files and modules:

- `collections.dfy`, module `Collections`: `Option` for `null`/`undefined`,
  and `Filter`, the `Array.prototype.filter` the component uses everywhere,
  with its order and pairwise-invariant lemmas.
- `text.dfy`, module `Text`: the `" - "` separator, `split` on it, and the
  default `sort` order on strings, with a sorted-set listing proved against it.
- `roster.dfy`, module `Roster`: the records, `GetCategory` and the pool,
  group-key and group-picker derivations, with their properties.
- `rules.dfy`, module `Rules`: each handler's effect on the lists as a
  function of the old state, with the invariants it keeps. The main one is
  lifetime uniqueness: no student plays in two matches of one sport.
- `app.dfy`, module `AppState`: the `App` class. Its mutating methods are
  specified by the `Rules` functions. Its derivation methods run the
  source's `forEach` loops and are proved against the `Roster` functions.

Parameters stand in for what the source takes from its environment. The
`Date.now()` ids and the `new Date().toISOString()` timestamps are method
parameters. The data loaded from `localStorage` is the constructor's
argument. `confirm()` in `deleteStudent` is taken as answered yes.

Facts about the code that a reader might not expect:

- `scheduleMatch` checks only that a sport and two different players are
  set. It does not re-check that the players are eligible; only the pickers
  ensure it.
- `declareWinner` of an unknown id changes nothing and reports nothing.
- The key separator is `" - "`, not `"-"`.
- `handleStudentSubmit` tests the edit target for truthiness, so an edit
  target of `""` counts as no edit: the form creates a new student and the
  edit target is left as it was.
- The source has no automatic batch scheduling, shuffle, team sports,
  variable players per match or participation-status view. Matches have
  exactly two players.

## Model

| member | source | states |
|---|---|---|
| `Roster.GetCategory` | src/App.jsx:76-82 | 'Juniors (4-5)' exactly for 4–5, 'Middle (6-7)' exactly for 6–7, 'Seniors (8-10)' exactly for 8–10, 'Unknown' exactly for every other integer |
| `Roster.CategorySplittable` | src/App.jsx:76-82 | no category name has a space followed by a dash, so none can be mistaken for the key separator |
| `Roster.GendersSplittable` | src/App.jsx:431-434 | neither offered gender, 'Boys' or 'Girls', has a space followed by a dash |
| `Roster.BusyIdsMeaning` | src/App.jsx:261-267 | an id is in the busy set of a sport exactly when it is player 1 or player 2 of some match of that sport, of any status |
| `Roster.PoolMembers` | src/App.jsx:257-276 | a student is in the pool exactly when a sport is selected, the student is listed and registered for it, and plays in no match of it |
| `Roster.PoolOrder` | src/App.jsx:270-273 | the pool of a concatenated roster is the concatenation of the pools, so the pool keeps the roster's order |
| `Roster.PlayersForKey` | src/App.jsx:289-293 | for a key built from a category and gender free of separators, the picker lists exactly the pool members with that category and gender, in pool order |
| `Roster.KeysSplitBack` | src/App.jsx:284-291 | the key of a pool member with a derived category and a separator-free gender splits back into that member's category and gender, and selecting it lists the member |
| `Roster.FilteredStudents` | src/App.jsx:246-254 | a student is listed exactly when each set criterion (category, gender, class, sport) holds of them |
| `Roster.NoFiltersListsAll` | src/App.jsx:246-254 | with no criterion set the whole roster is listed, in order |
| `Text.FindSep` | src/App.jsx:291 | the result is the first separator position at or after the start index, or none when there is no separator there |
| `Text.SplitKey` | src/App.jsx:291 | the first field is a prefix of the key with no separator in it, and the whole key when there is none; gender is undefined exactly when the key has no separator |
| `Text.SplitKeyFields` | src/App.jsx:291 | when the key has a separator, the first field ends at the first one, and gender is the text after it up to the next separator or to the end |
| `Text.SplitJoin` | src/App.jsx:284-291 | splitting `cat + " - " + g` gives back `(cat, g)` when neither part has a space followed by a dash |
| `Text.BelowIrreflexive` | src/App.jsx:286 | no string sorts before itself |
| `Text.BelowTransitive` | src/App.jsx:286 | the string order is transitive |
| `Text.BelowTotal` | src/App.jsx:286 | of two different strings one sorts before the other |
| `Text.Insert` | src/App.jsx:286 | inserting into a strictly sorted list gives a strictly sorted list with exactly the old elements and the new one |
| `Text.SortedList` | src/App.jsx:286 | the listing of a set is strictly sorted and holds exactly the set's elements |
| `Text.SortedUnique` | src/App.jsx:286 | two strictly sorted lists with the same elements are equal, so the key list does not depend on the set's fill order |
| `Rules.OneMatchPerSportMeaning` | src/App.jsx:260-267 | under lifetime uniqueness, two matches of one sport with the same student are the same match |
| `Rules.Schedule` | src/App.jsx:198-212 | a no-op when sport or a player is empty or both players are the same; otherwise exactly one match is appended, existing matches unchanged, with the form's sport, group and players, no winner, status scheduled |
| `Rules.AfterSchedule` | src/App.jsx:213 | after a match is scheduled both picks are cleared and sport and group stay selected; a rejected form is unchanged |
| `Rules.ScheduleFreePlayers` | src/App.jsx:198-212 | scheduling two players who are in no match of the sport keeps every student in at most one match of each sport |
| `Rules.PickersKeepOneMatchPerSport` | src/App.jsx:704-730 | when player 1 is offered by the group picker and player 2 by the same picker without player 1, lifetime uniqueness is kept |
| `Rules.ScheduleKeepsWinners` | src/App.jsx:201-212 | a newly scheduled match has no winner, so every match still has a winner exactly when finished, and that winner is one of its players |
| `Rules.WithWinner` | src/App.jsx:216-220 | every match with the id becomes finished with that winner and keeps its other fields; every other match, the length and the order are unchanged |
| `Rules.WinnerIdempotent` | src/App.jsx:216-220 | declaring the same winner twice gives the same match list as once |
| `Rules.WinnerKeepsPool` | src/App.jsx:216-220 | declaring a winner leaves every sport's pool unchanged |
| `Rules.WinnerKeepsOneMatchPerSport` | src/App.jsx:216-220 | declaring a winner keeps lifetime uniqueness |
| `Rules.WinnerFromPlayers` | src/App.jsx:772-776 | when the winner is one of the match's two players, as the buttons offer, every finished match has one of its players as winner |
| `Rules.WithoutMatch` | src/App.jsx:222 | the kept matches are exactly those with another id |
| `Rules.DeleteMatchKeepsInvariants` | src/App.jsx:222 | deleting matches keeps lifetime uniqueness and valid winners |
| `Rules.DeleteMatchFreesPlayers` | src/App.jsx:222 | after its match is deleted, a player of it who is registered for its sport is in that sport's pool again |
| `Rules.DeletionsKeepOrder` | src/App.jsx:191-222 | each deletion filter distributes over concatenation, so the surviving matches and students keep their order |
| `Rules.WithoutStudent` | src/App.jsx:193 | the kept students are exactly those with another id |
| `Rules.WithoutPlayer` | src/App.jsx:194 | the kept matches are exactly those in which the deleted student is neither player |
| `Rules.DeleteStudentKeepsInvariants` | src/App.jsx:191-196 | no remaining match refers to the deleted student; lifetime uniqueness, valid winners and valid registrations are kept |
| `Rules.ToggleSport` | src/App.jsx:182-189 | a selected sport is removed and nothing else is; an unselected one is appended below three selections and ignored otherwise |
| `Rules.ToggleKeepsSelection` | src/App.jsx:182-189 | a selection of at most three distinct sports stays one |
| `Rules.FromForm` | src/App.jsx:142-148 | the student record has the form's name, class, gender and sports and the category of its class |
| `Rules.ApplyEdit` | src/App.jsx:152 | every student keeps id and place; those with the edited id take the form's data, the others are untouched |
| `Rules.Submit` | src/App.jsx:139-164 | an incomplete form changes nothing; otherwise a truthy edit target (present and not `""`) replaces the edited student in place, and any other appends a new student |
| `Rules.SubmitKeepsRoster` | src/App.jsx:139-164 | every stored student keeps the category of its class and at most three distinct sports |
| `Rules.SubmitIds` | src/App.jsx:150-161 | editing (a truthy edit target) keeps the length and the id at every place; creating appends one student with the new id |
| `AppState.App.constructor` | src/App.jsx:95-129 | both lists start as loaded, the forms and filter empty, nobody being edited |
| `AppState.App.EligiblePlayers` | src/App.jsx:257-276 | the loop-built pool equals the pool function, has exactly the eligible listed students, and is empty with no sport selected |
| `AppState.App.AvailableCategoriesForSport` | src/App.jsx:278-287 | the keys are strictly sorted; each is the key of a pool member and every pool member's key is there; empty exactly when the pool is, and with no sport |
| `AppState.App.PlayersForMatch` | src/App.jsx:289-293 | empty with no group selected; only pool members are offered |
| `AppState.App.FilteredStudentsList` | src/App.jsx:246-254 | the list holds exactly the students that pass the current filter |
| `AppState.App.SelectSport` | src/App.jsx:677 | choosing a sport clears group and both picks |
| `AppState.App.SelectCategory` | src/App.jsx:690 | choosing a group clears both picks and keeps the sport |
| `AppState.App.SelectPlayer1` | src/App.jsx:710 | only player 1 changes |
| `AppState.App.SelectPlayer2` | src/App.jsx:722 | only player 2 changes |
| `AppState.App.ScheduleMatch` | src/App.jsx:198-214 | the matches and the form change as `Schedule` and `AfterSchedule` say, nothing else changes; picker-chosen players keep lifetime uniqueness; winners stay valid |
| `AppState.App.DeclareWinner` | src/App.jsx:216-220 | only the matches change, as `WithWinner` says; lifetime uniqueness and the pool are kept; a winner from the buttons keeps winners valid |
| `AppState.App.DeleteMatch` | src/App.jsx:222 | only the matches change, to those with another id; uniqueness and valid winners are kept |
| `AppState.App.DeleteStudent` | src/App.jsx:191-196 | the student and every match they play in are removed, nothing else changes; all invariants are kept |
| `AppState.App.ToggleSportSelection` | src/App.jsx:182-189 | only the form's sports change, as `ToggleSport` says; at most three distinct sports stay so |
| `AppState.App.StartEdit` | src/App.jsx:166-175 | the edit target and the form are loaded from the student; a listed student keeps the registration invariant |
| `AppState.App.CancelEdit` | src/App.jsx:177-180 | nobody is being edited and the form is empty |
| `AppState.App.HandleStudentSubmit` | src/App.jsx:139-164 | the students change as `Submit` says; a complete form is cleared, an edit ends the edit and a creation leaves the edit target as it was; an incomplete form changes nothing; the registration invariant is kept |
| `AppState.App.ResetFilters` | src/App.jsx:224-226 | every filter criterion is cleared |

## Left out

- Rendering: the JSX, the presentational components and the dashboard,
  participant, filter and scheduler views are display only.
- The dashboard statistics (`stats`, src/App.jsx:231-243) and the progress
  percentages: counts and floating-point ratios shown on the dashboard only.
- The participant-filter inputs' change handlers (src/App.jsx:570-604) and
  the registration form's text inputs: they only store what was typed. The
  schedule-form pickers are modelled because the uniqueness property rests on them.
- Persistence: loading from and saving to `localStorage` through JSON is I/O.
  The loaded lists are the constructor's arguments.
- The `confirm()` dialog of `deleteStudent`: only the confirmed branch is modelled.
- Clock values: ids from `Date.now()` and ISO timestamps are parameters. The
  model does not assume they are unique; `WithWinner` and `WithoutMatch` act
  on every match with the id.
- `parseInt` string parsing: a class is an integer, and an empty class field
  is `None`. `StartEdit` treats class 0 as an empty field, as JavaScript's
  falsy test does. A class that does not parse (`NaN`) is not modelled.
- String order: the model compares by character code. JavaScript sorts by
  UTF-16 code unit, and the two differ only outside the Basic Multilingual Plane.
- React mechanics: `useMemo` caching and re-rendering are replaced by
  functions and methods recomputed from the current fields. The active tab
  is not modelled.

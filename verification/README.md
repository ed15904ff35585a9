# Brain-scroll quiz session, modelled in Dafny

The app presents twelve fixed multiple-choice "brain challenges" (pattern,
physics, logic, spatial and sequence puzzles) on a vertically snapping list of
cards. The user clicks one option per card; the app keeps an answer ledger
(challenge id to chosen option index), a running streak, a score recomputed
from the ledger, and shows a completion percentage on the end screen, where
"try again" starts over.

This project models that session state machine, all of it in `src/App.tsx`:

- `catalog.dfy` (module `Catalog`): the `Challenge` record without its display
  text and visual, the twelve shipped challenges, and lookup by id
  (`challenges.find(c => c.id === id)`).
- `session.dfy` (module `Session`): the session state (`started`, the ledger
  `answers`, `streak`, `activeIndex`), the transitions `Start`, `HandleAnswer`
  (the answer handler on its own), `Submit` (the card's answered-guard
  followed by the handler) and `Reset` ("try again"), the derived score
  `CorrectCount` with a loop `CountCorrect` that computes it the way the app
  does, and the session invariant `Valid`.
- `score.dfy` (module `Score`): the completion percentage, rounded as
  `Math.round` rounds.
- `replay.dfy` (module `Replay`): sequences of clicks, the streak as the run
  of correct accepted clicks at the end in submission order, and the score
  as a running tally that never drifts from a recount.
- `scenarios.dfy` (module `Scenarios`): concrete sessions over the shipped
  catalog.
- `optional.dfy`, `sets.dfy`: an `Option` type and a set-cardinality fact.

Behaviour worth knowing, as the code has it:

- First answer wins only because of the card: the answer handler itself
  replaces an earlier entry (`new Map(prev).set(...)`); the card ignores the
  click and disables its buttons once its challenge has an entry. `Submit`
  is that guard followed by the handler; `HandleAnswer` alone overwrites.
- The handler does not check the option index; only the card's rendering of
  one button per option keeps it in range. `Submit` therefore takes any
  index, and `SubmitKeepsChoicesInRange` states what in-range clicks keep.
- The streak is a stored counter, updated at click time, so "consecutive"
  means consecutive accepted clicks in submission order, not catalog order.
  Ignored clicks (already answered, unknown id) do not touch it.
- No card exists until the welcome screen is dismissed (the app renders only
  the welcome screen while `started` is false), so `Submit` ignores every
  click before `Start`, and the session invariant records that nothing is
  answered then.
- The stats bar shows the score over the number of answered challenges
  (`answers.size`), not over the catalog size; only the end screen divides by
  the catalog size.
- "Try again" clears the ledger, the streak and the active card but leaves
  the welcome screen dismissed.
- The percentage is modelled with integers as `(200 * c + n) / (2 * n)`,
  which is `Math.round(100 * c / n)` for exact rationals. With twelve
  challenges no score is a tie, so rounding direction never matters.

## Model

| member | source | states |
|---|---|---|
| Catalog.Challenges | src/App.tsx:18-139 | twelve entries, entry i has id i + 1, four options and a correct index within them, matching the shipped answer key |
| Catalog.FindFrom | src/App.tsx:575 | the scan finds the first position from k holding the id, or reports that no later position holds it |
| Catalog.Entry | src/App.tsx:19-138 | challenge id of the shipped data has that id, four options and the correct index of the answer key, which lies among them |
| Catalog.Find | src/App.tsx:575 | lookup finds nothing exactly when the id is not in the catalog, and otherwise a catalog entry with that id |
| Catalog.FindEntry | src/App.tsx:571 | with distinct ids, looking up an entry's own id returns that entry |
| Catalog.ChallengesIds | src/App.tsx:18-139 | the shipped ids are distinct and are exactly 1..12 |
| Catalog.FindInChallenges | src/App.tsx:575 | in the shipped catalog, id 1..12 finds the entry at position id - 1 and any other id finds nothing |
| Session.Initial | src/App.tsx:563-567 | at mount the welcome screen shows, no card has a selection, the streak is 0 and the first card is active |
| Session.Start | src/App.tsx:607 | the start button dismisses the welcome screen and changes nothing else |
| Session.CorrectCount | src/App.tsx:570-572 | the score is the number of ledger entries holding their challenge's correct index, and never exceeds the ledger size |
| Session.CountCorrect | src/App.tsx:570-572 | a pass over the ledger entries that keeps the correct ones yields exactly the score |
| Session.AnsweredCount | src/App.tsx:616 | the answered count is the number of ids with an answer, zero exactly when no card shows a selection |
| Session.EmptyLedger | src/App.tsx:625-626 | the ledger is empty exactly when no card shows a selection |
| Session.Query | src/App.tsx:625-626 | a card is answered exactly when the ledger has its id, and then shows the recorded option |
| Session.HandleAnswer | src/App.tsx:574-585 | an unknown id changes nothing; a known id gets the option recorded, replacing any earlier one, other entries kept, streak plus one if correct and zero otherwise |
| Session.Submit | src/App.tsx:450-451 | a click before the welcome screen is dismissed, on an answered card or for an unknown id changes nothing; otherwise it adds exactly id to option and updates the streak by correctness |
| Session.Reset | src/App.tsx:644-647 | "try again" empties the ledger, zeroes the streak and the active card, and keeps the welcome screen state |
| Session.CorrectCountAfterInsert | src/App.tsx:570-578 | recording a fresh answer raises the score by one exactly when that answer is correct |
| Session.SubmitCounts | src/App.tsx:570-578 | after a click, the answered count rises by one exactly when the click is accepted, and the score exactly when it is accepted and correct |
| Session.InitialValid | src/App.tsx:563-567 | the state at mount satisfies the session invariant |
| Session.StartValid | src/App.tsx:607 | starting keeps the session invariant |
| Session.SubmitValid | src/App.tsx:574-584 | a click keeps the invariant: only catalog ids recorded, streak at most the score, nothing answered before start |
| Session.ResetValid | src/App.tsx:644-647 | "try again" establishes the session invariant from any state |
| Session.CountBounds | src/App.tsx:570-578 | in a valid session, streak <= score <= answered count <= catalog size |
| Session.FirstAnswerWins | src/App.tsx:450-451 | after an accepted click on a card, any later click on it, with any option, changes nothing and the first option stays selected |
| Session.NoClickBeforeStart | src/App.tsx:603-611 | while the welcome screen shows, no click changes the session |
| Session.UnknownIdIgnored | src/App.tsx:575-576 | a click for an id the catalog does not know leaves ledger and streak unchanged |
| Session.HandlerAloneOverwrites | src/App.tsx:578 | without the card's guard a second answer replaces the first, so the guarded and unguarded sequences differ |
| Session.SubmitKeepsEntries | src/App.tsx:578 | a click never removes or changes an entry already in the ledger |
| Session.ResetRestoresMount | src/App.tsx:644-647 | "try again" yields the state at mount apart from the welcome screen, and is idempotent |
| Session.ScoreMatchesCards | src/App.tsx:621-626 | the score's correct ids are exactly the ids of the cards that show their correct option as selected |
| Session.SubmitKeepsChoicesInRange | src/App.tsx:441-451 | clicks on a card's own buttons keep every recorded option a valid index into that card's options |
| Score.Percentage | src/App.tsx:638 | the percentage is the integer within half a point of 100 * score / total, ties rounded up |
| Score.PercentageUnique | src/App.tsx:638 | any integer meeting the rounding brackets is the percentage |
| Score.PercentageBounds | src/App.tsx:638 | for a score within the total the percentage is in 0..100, 100 and 0 exactly at the rounding thresholds |
| Score.NoTiesOutOfTwelve | src/App.tsx:638 | out of twelve no score sits exactly half-way between two whole percentages |
| Score.Completion | src/App.tsx:638 | the end screen's figure for a valid session lies in 0..100 and is 100 exactly when the misses round away |
| Score.NineOfTwelve | src/App.tsx:638 | any valid session over the shipped catalog with nine correct answers shows 75 on the end screen |
| Replay.StreakIsTrailingRun | src/App.tsx:580-584 | after any clicks the streak is the run of correct accepted clicks at the end, plus the starting streak if none was incorrect |
| Replay.ConsecutiveCorrect | src/App.tsx:580-584 | k correct accepted clicks from streak 0 give streak k |
| Replay.ScoreIsTally | src/App.tsx:570-584 | recounting the ledger after any clicks gives the starting score plus the correct accepted clicks; the ledger grows by the accepted clicks |
| Replay.RunValid | src/App.tsx:574-584 | any clicks keep the session invariant |
| Replay.RunKeepsEntries | src/App.tsx:450-451 | any clicks keep every recorded answer as it was |
| Scenarios.MixedAnswers | src/App.tsx:570-584 | answering 1 correctly, 2 wrongly, 3 correctly gives streak 1, score 2, three answered |
| Scenarios.SecondClickIgnored | src/App.tsx:450-451 | a second click on challenge 5 keeps option 1 and the score at 1 |
| Scenarios.ClickOnWelcomeScreen | src/App.tsx:603-611 | clicking challenge 1's correct option before start leaves the mount state as it was |
| Scenarios.TryAgainAfterPartialPlay | src/App.tsx:644-647 | "try again" after partial play leaves nothing answered, streak 0, first card, score 0 |

## Left out

- The scroll tracker (the effect that sets the active card from `scrollTop / clientHeight`): it reads floating-point layout values from the page and attaches and removes a listener; `activeIndex` is kept in the state and only "try again" sets it.
- The smooth scroll back to the top on "try again": a page effect with no state.
- Every visual component (puzzle visuals, particles, stats bar, welcome screen, footer): markup only; the particles use `Math.random`.
- The `question`, `explanation` and `visual` fields of a challenge: display content no transition reads.
- React's batching of state updates: each transition is one atomic update.
- The insertion order of the JavaScript `Map`: no derived value depends on it, so the ledger is a plain map.
- Score.Percentage: requires a non-empty catalog; with none the app would divide zero by zero and show `NaN`, but the catalog always has twelve entries.
- Score.Percentage: exact rational arithmetic instead of floating point; with twelve challenges every score is at least a sixth of a point from a tie, so the float result rounds the same way.

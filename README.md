# Set game: dealer and player bookkeeping

A model of the sequential core of a multi-player "Set" card game. A dealer
deals cards from a deck onto a table of twelve slots. Players place tokens
on slots, and a player who marks three slots submits a claim. The dealer
serves the claims in order: a claim whose cards have meanwhile left their
slots loses the stale tokens, a claim of three cards that form a set earns a
point (and the cards are replaced from the deck), any other claim earns a
penalty. At the end of the game the players with the highest score win.

The model has five modules:

- `Wrappers`: the `Option` datatype.
- `Cards`: cards, the table's `slotToCard` array as a sequence of
  `Option<Card>`, and the deck. Pure functions describe the dealer's
  transfers between deck and table (`RemoveFirst`, `ClearClaimed`,
  `DealInto`, `Refill`, `Collect`). The lemmas state their effect slot by
  slot and card by card (`InGame` counts the copies of a card in the deck and
  on the table).
- `Tokens`: a player's two token rows and counter as a value (`TokenState`),
  the token invariant `Inv`, the toggle rule of `tokenAction` (`Toggle`) and
  the staleness check of `setTest` (`DropStale`).
- `Scores`: the highest score, how many players hold it, and the winners.
- `Game`: the classes `Player` and `Dealer` with the fields their methods
  update in place. The table is one `array<Option<Card>>` shared by the
  dealer and all players. Each player's two token rows are two `array<int>`
  of three entries (a Java `int[2][3]` is two row arrays). Each method runs
  the source's loops on these arrays and is proved against the functions of
  the other modules.

The environment's set-validity test is the parameter `isSet`. The two
shuffles of `placeCardsOnTable` are parameters: a slot order (`IsSlotOrder`,
every slot exactly once) and a deck order with the same multiset of cards as
the deck. The shuffle of `removeAllCardsFromTable` is a slot order too.

Three behaviours of the code shape the model:

- `setTest` reads the claimant's token rows as they are when the claim is
  served, not as they were when the third token was placed.
- The cards of an accepted set leave the game. They are removed from the
  table and from the deck, and not returned to either. So the cards in deck
  and table together shrink by the three claimed cards (`Cards.RefillCounts`).
- After its claim is served the player sets itself available again at
  once (Player.java:241), before the point or penalty pause. The model has
  this as `Game.Player.ResumeAfterClaim`.

## Model

| member | source | states |
|---|---|---|
| Tokens.InvBounds | src/main/java/bguspl/set/ex/Player.java:57-62 | under the invariant the counter stays in 0..3, and it is 3 exactly when every entry names a slot |
| Tokens.NoTokens | src/main/java/bguspl/set/ex/Player.java:58-59 | the initial and cleared token state: all six entries -1, counter 0, and it satisfies the invariant |
| Tokens.IndexOf | src/main/java/bguspl/set/ex/Player.java:210-211 | the first entry holding the pressed slot, or the row length when the slot is not marked |
| Tokens.LastUnused | src/main/java/bguspl/set/ex/Player.java:219-221 | the `empty` index the scan ends with: the last free entry, or -1 when there is none |
| Tokens.FreeEntryExists | src/main/java/bguspl/set/ex/Player.java:224-225 | with fewer than three tokens there is a free entry, so `empty >= 0` when a token is written |
| Tokens.ToggleAsWritten | src/main/java/bguspl/set/ex/Player.java:207-228 | tokenAction exactly as written: it crashes exactly on a press of a new slot that shows no card while fewer than three tokens are held |
| Tokens.Toggle | src/main/java/bguspl/set/ex/Player.java:207-228 | the toggle rule keeps the token invariant |
| Tokens.RemoveKeepsInv | src/main/java/bguspl/set/ex/Player.java:211-216 | freeing one used entry in both rows and lowering the counter by one keeps the invariant |
| Tokens.PlaceKeepsInv | src/main/java/bguspl/set/ex/Player.java:224-227 | writing a new slot and its card into a free entry and raising the counter by one keeps the invariant |
| Tokens.ToggleCases | src/main/java/bguspl/set/ex/Player.java:207-228 | a press on a marked slot clears exactly that entry in both rows and lowers the counter by one; a press on a new slot with fewer than three tokens writes slot and card into a free entry and raises the counter by one; a fourth token (or an emptied slot) changes nothing |
| Tokens.ToggleUndo | src/main/java/bguspl/set/ex/Player.java:210-227 | pressing a newly marked slot again restores the rows and the counter exactly |
| Tokens.CompletesOnlyByPlacing | src/main/java/bguspl/set/ex/Player.java:224-231 | a press completes a claim exactly when it places a new token while two are held and the slot shows a card |
| Tokens.AsWrittenAgreesOnCards | src/main/java/bguspl/set/ex/Player.java:207-228 | while the pressed slot shows a card, the code as written and the corrected rule agree |
| Tokens.AsWrittenCrashesOnEmptySlot | src/main/java/bguspl/set/ex/Player.java:225-226 | a press of a new, emptied slot with fewer than three tokens throws and leaves rows and counter breaking the invariant |
| Tokens.Mismatches3 | src/main/java/bguspl/set/ex/Dealer.java:216-231 | the number of stale entries is the sum over the three entries of "slot empty or showing another card" |
| Tokens.StaleIffSomeMismatch | src/main/java/bguspl/set/ex/Dealer.java:216-232 | a claim counts as overlapped exactly when some entry's slot is empty or shows another card |
| Tokens.FullSlotsInRange | src/main/java/bguspl/set/ex/Dealer.java:210-218 | with three tokens every recorded slot indexes the table |
| Tokens.DropStale | src/main/java/bguspl/set/ex/Dealer.java:216-233 | the staleness loop with the counter update: each entry is either kept as it was or freed in both rows, and the counter never rises |
| Tokens.DropStaleExact | src/main/java/bguspl/set/ex/Dealer.java:216-233 | stale-entry removal is exact: matching entries stay, mismatched entries become -1 in both rows, the counter is again the number of used entries (below 3 exactly when the claim was stale), and a claim that still matches is untouched |
| Game.Judge | src/main/java/bguspl/set/ex/Dealer.java:210-254 | the verdict of setTest; any verdict other than "not full" comes with all three recorded slots indexing the table |
| Cards.RemoveFirst | src/main/java/bguspl/set/ex/Dealer.java:325 | `List.remove(Object)`: an absent card leaves the deck as it is; a present one is removed once, so the deck's multiset loses exactly that card |
| Cards.RemoveFirstAt | src/main/java/bguspl/set/ex/Dealer.java:325 | `List.remove(Object)` takes out the first copy of the card: when that copy sits at position `i`, the result is the deck without position `i`, the rest in the same order |
| Cards.OnTableHolds | src/main/java/bguspl/set/ex/Dealer.java:325 | a slot showing a card puts that card on the table |
| Cards.ClearClaimed | src/main/java/bguspl/set/ex/Dealer.java:323-328 | the first loop of replaceSetCards: every claimed slot ends up empty, every other slot keeps its content, and the deck never grows |
| Cards.DealInto | src/main/java/bguspl/set/ex/Dealer.java:158-162 | the dealing loop (also Dealer.java:330-333): exactly min(slots, deck) cards leave the deck, and slots not dealt to keep their content (which cards go where is `Cards.DealIntoShape`) |
| Cards.Refill | src/main/java/bguspl/set/ex/Dealer.java:322-333 | replaceSetCards: the slots not claimed keep their content and the deck never grows |
| Cards.ClearClaimedShape | src/main/java/bguspl/set/ex/Dealer.java:323-328 | the first loop of replaceSetCards empties every claimed slot, leaves the other slots alone, and leaves the deck unchanged when no claimed card is in it |
| Cards.ClearClaimedCounts | src/main/java/bguspl/set/ex/Dealer.java:323-328 | the first loop takes exactly the claimed cards off the table |
| Cards.DealIntoShape | src/main/java/bguspl/set/ex/Dealer.java:158-162 | dealing gives the j-th slot the deck's j-th card while cards last; the deck loses exactly min(slots, deck) cards from its front; other slots are untouched |
| Cards.DealIntoCounts | src/main/java/bguspl/set/ex/Dealer.java:158-162 | dealing into empty slots keeps every card's number of copies in the game |
| Cards.DealIntoNoGain | src/main/java/bguspl/set/ex/Dealer.java:158-162 | dealing never adds a copy of a card to the game |
| Cards.DealIntoKeepsDistinct | src/main/java/bguspl/set/ex/Dealer.java:158-162 | dealing keeps the game free of duplicated cards |
| Cards.FullDeckCounts | src/main/java/bguspl/set/ex/Dealer.java:59 | the initial deck holds each card below the deck size exactly once and nothing else |
| Cards.ClaimedNotInDeck | src/main/java/bguspl/set/ex/Dealer.java:325 | with no card duplicated, a card on a claimed slot is not in the deck |
| Cards.RefillShape | src/main/java/bguspl/set/ex/Dealer.java:322-333 | replaceSetCards: the j-th claimed slot gets the deck's j-th card, or is empty once the deck runs out; the deck shrinks by exactly min(3, deck); all other slots are unchanged |
| Cards.RefillCounts | src/main/java/bguspl/set/ex/Dealer.java:322-333 | replaceSetCards takes exactly the claimed cards out of the game, card by card |
| Cards.RefillDiscards | src/main/java/bguspl/set/ex/Dealer.java:322-333 | after replaceSetCards no card is duplicated, and the claimed cards are neither on the table nor in the deck |
| Cards.CollectEffect | src/main/java/bguspl/set/ex/Dealer.java:285-291 | the visited slots end up empty and the others keep their cards |
| Cards.CollectCounts | src/main/java/bguspl/set/ex/Dealer.java:285-291 | collecting moves cards from table to deck without losing or duplicating any |
| Cards.CollectAll | src/main/java/bguspl/set/ex/Dealer.java:280-291 | visiting all twelve slots empties the table, and the deck gains exactly the multiset of cards that were on it |
| Scores.MaxScore | src/main/java/bguspl/set/ex/Dealer.java:299-309 | the highest score: at least every score, and held by some player |
| Scores.IndicesOf | src/main/java/bguspl/set/ex/Dealer.java:312-317 | the positions found by the second loop all index the players |
| Scores.IndicesOfSpec | src/main/java/bguspl/set/ex/Dealer.java:312-317 | exactly the positions holding the score, in increasing order, as many as its count |
| Scores.CountOfPrefix | src/main/java/bguspl/set/ex/Dealer.java:310-316 | a prefix of the players holds no more copies of a score than all of them, so `index` stays within `winners` |
| Scores.CountOfAbsent | src/main/java/bguspl/set/ex/Dealer.java:302-304 | a score above all scores seen so far has count 0, so the count restarts at one |
| Scores.TallyStep | src/main/java/bguspl/set/ex/Dealer.java:301-309 | one step of the first loop keeps the running maximum and its count |
| Scores.ListStep | src/main/java/bguspl/set/ex/Dealer.java:312-317 | one step of the second loop appends the player's id exactly when it holds the highest score |
| Scores.Winners | src/main/java/bguspl/set/ex/Dealer.java:298-318 | the winners' ids; there are as many as players holding the highest score |
| Scores.WinnersExact | src/main/java/bguspl/set/ex/Dealer.java:298-318 | the winners are exactly the players holding the maximum score, at least one of them, and their number is the count of that score |
| Scores.Pick | src/main/java/bguspl/set/ex/Dealer.java:310-316 | as many ids as positions picked |
| Cards.Collect | src/main/java/bguspl/set/ex/Dealer.java:285-291 | collecting only appends to the deck: the old deck is a prefix of the new one |
| Game.Player.constructor | src/main/java/bguspl/set/ex/Player.java:58-89 | a new player holds no tokens, has score 0 and no pending presses, is available and not paused |
| Game.Player.KeyPressed | src/main/java/bguspl/set/ex/Player.java:159-165 | a press is queued only when the slot shows a card, the player is available and fewer than three presses are pending; the queue never exceeds three |
| Game.Player.TokenAction | src/main/java/bguspl/set/ex/Player.java:207-231 | the rows and counter change as Toggle says and keep the token invariant; placing the third token makes the player unavailable and appends it to the dealer's queue, and nothing else does |
| Game.Player.ResumeAfterClaim | src/main/java/bguspl/set/ex/Player.java:241 | woken after its claim, the player is available again |
| Game.Player.DrainPress | src/main/java/bguspl/set/ex/Player.java:101-105 | with presses pending and no pause, the oldest press is removed and toggled, and the player becomes unavailable exactly when the press completes a claim; otherwise queue, tokens and availability are unchanged |
| Game.Player.RemoveAllTokens | src/main/java/bguspl/set/ex/Player.java:263-269 | all six entries become -1 and the counter 0, whatever the rows held before (so it is idempotent) |
| Game.Player.Point | src/main/java/bguspl/set/ex/Player.java:173-186 | the score rises by exactly one, all tokens are cleared, the player is available |
| Game.Player.Penalty | src/main/java/bguspl/set/ex/Player.java:191-200 | the player becomes available; tokens, counter and score are untouched |
| Game.Player.Resolve | src/main/java/bguspl/set/ex/Player.java:106-116 | a point pause ends in a point, a penalty pause in a penalty, and the pause request is cleared |
| Game.Dealer.constructor | src/main/java/bguspl/set/ex/Dealer.java:54-60 | the deck holds the cards 0 .. deckSize - 1 in order, the table is empty, no card is duplicated |
| Game.Dealer.AddSet | src/main/java/bguspl/set/ex/Dealer.java:202-206 | a claim joins the back of the queue |
| Game.Dealer.TakeClaim | src/main/java/bguspl/set/ex/Dealer.java:172-174 | the claim at the front of the queue is the one taken, and the rest keep their order |
| Game.Dealer.ServeNextClaim | src/main/java/bguspl/set/ex/Dealer.java:187-191 | the oldest pending claim is taken off the queue and adjudicated with all the effects of setTest on that player, the table and the deck, while its score and pending presses stay; with none pending nothing changes |
| Game.Dealer.ClearStaleEntries | src/main/java/bguspl/set/ex/Dealer.java:216-231 | the loop frees exactly the stale entries in both rows and returns their number |
| Game.Dealer.SetTest | src/main/java/bguspl/set/ex/Dealer.java:209-254 | without three tokens nothing changes; a stale claim loses exactly its stale entries and the counter drops by their number, with pause, availability and table unchanged; a matching claim keeps its tokens, makes the player unavailable with a penalty pause (table untouched) or a point pause with its cards replaced |
| Game.Dealer.Adjudicate | src/main/java/bguspl/set/ex/Dealer.java:236-248 | the matching-claim branch: penalty and table untouched when the cards are not a set, point and replaceSetCards on the claimed slots when they are |
| Game.Dealer.ReplaceSetCards | src/main/java/bguspl/set/ex/Dealer.java:322-333 | the two loops compute Refill on the claimed slots and keep the game free of duplicated cards |
| Game.Dealer.ResetAllTokens | src/main/java/bguspl/set/ex/Dealer.java:149-151 | every player's tokens are cleared |
| Game.Dealer.PlaceCardsOnTable | src/main/java/bguspl/set/ex/Dealer.java:147-163 | all tokens are reset; then min(12, deck) cards from the front of the shuffled deck go to distinct slots in the shuffled slot order, the deck keeps the rest, no card is duplicated, and onto an empty table no card is lost |
| Game.Dealer.DealCards | src/main/java/bguspl/set/ex/Dealer.java:156-162 | the shuffled deck and slot order are put in place, then DealFront deals; the result is DealInto on them, with its shape and card guarantees |
| Game.Dealer.DealFront | src/main/java/bguspl/set/ex/Dealer.java:158-162 | the loop that moves the deck's head card into the next slot of the order, stopping when the deck runs out or twelve slots are filled, computes DealInto on the current deck and slot order |
| Game.Dealer.RemoveAllCardsFromTable | src/main/java/bguspl/set/ex/Dealer.java:274-292 | all tokens are reset, every slot ends up empty, and the deck gains exactly the multiset of cards that were on the table |
| Game.Dealer.CollectCards | src/main/java/bguspl/set/ex/Dealer.java:280-291 | the collecting loop computes Collect, empties the table, and keeps every card's count |
| Game.Dealer.AnnounceWinners | src/main/java/bguspl/set/ex/Dealer.java:298-318 | the result is exactly the ids of the players holding the highest score, in player order |
| Game.Dealer.Tally | src/main/java/bguspl/set/ex/Dealer.java:299-309 | the first loop finds the highest score and the number of players holding it |
| Game.Dealer.ListWinners | src/main/java/bguspl/set/ex/Dealer.java:310-317 | the second loop never writes outside the array sized by the count, and fills it exactly with the winners' ids in player order |

## Left out

- Threads, `wait`, `interrupt`, `join` and thread creation. Each operation is one atomic method, and the player's wait for the dealer is split into `TokenAction` and `ResumeAfterClaim`.
- The `isFree` busy-wait hand-off between player and dealer. It is polling between threads.
- Timing: `timerLoop`, `sleepUntilWokenOrTimeout`'s time arithmetic, `updateTimerDisplay`, the timer resets at the end of `replaceSetCards`, and the sleeps in `run` and `penalty`. These depend on the wall clock.
- All display and logging calls (`env.ui`, `env.logger`), and `table.placeToken`, `removeToken` and `countCards`. The `Table` class is not part of this model; only its `slotToCard` array is.
- `env.util.testSet` becomes the parameter `isSet`. `env.util.findSets` and `shouldFinish` are not part of this model, so the dealer's `run` loop that decides when the game ends is not modelled.
- `Collections.shuffle` and the AI player's random key presses. The shuffles are parameters, and the AI thread is not modelled.
- The empty `removeCardsFromTable` and `callSet` (an unsynchronised copy of `addSet`): no bookkeeping beyond what is modelled.
- Termination: `setTerminate`, `terminate` and the `terminate` flags, which end the player's press loop (Player.java:100-101) and the dealer's timer loop (Dealer.java:109). They are left out with the threads.
- The `setAvailability` loops of `run` (Dealer.java:71-73 and 83-85), which mark every player available after dealing and unavailable before the table is collected: they are left out with the rest of `run`.
- Game.Dealer.AnnounceWinners: requires at least one player; with no players the code throws on `players[0]` (Dealer.java:299), and that crash is not modelled.
- Game.Player.Point: `score` is an unbounded natural, so the 32-bit overflow of `score++` is not modelled (it needs more than two billion points).
- Game.Dealer.PlaceCardsOnTable: the conservation of cards is proved only when the table is empty beforehand, which is how the dealer's loop calls it (after `removeAllCardsFromTable`). On a table that still shows cards, only "no card is duplicated" is proved.
- Game.Dealer.SetTest: the players' token invariant is proved for the player being judged only. The dealer does not track the other players' invariants.
- Game.Player.DrainPress: the model's players behave like computer players. For a human player `aiThread` is never created (Player.java:98, 129), so `aiThread.interrupt()` at Player.java:103 throws a NullPointerException after the press is dequeued and before it is toggled, ending the player's thread; the same null dereference is at Dealer.java:122. That crash is not modelled.
- Game.Player.TokenAction: a press of a new slot that has become empty since it was queued is dropped, rather than crashing as the code does (see Findings).

## Findings

| source | as written | input that shows it | evidently intended | confidence | as-written member | corrected member |
|---|---|---|---|---|---|---|
| src/main/java/bguspl/set/ex/Player.java:225-226 | the new slot is written into row 0, then the card is unboxed from `table.slotToCard[slot]`; if that slot has become empty since the press was queued (a set was taken from it and the deck is exhausted), the unboxing throws a NullPointerException, leaving the slot recorded without its card and the counter not raised | a computer player with no tokens presses slot 4 while it shows a card; before the press is drained another player's set on slot 4 is accepted with an empty deck, so slot 4 is empty when `tokenAction(4)` runs | a press on a slot that no longer shows a card is dropped, like a press on an empty slot in `keyPressed` | not executed | Tokens.AsWrittenCrashesOnEmptySlot | Tokens.Toggle |

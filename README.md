# Conversation Cards — a verified model of the game controller

Conversation Cards is a small browser game for learners of Italian. The
player picks a level, then a topic, and draws question cards one by one from
a shuffled deck. A drawn card goes face-up onto a discard pile. Its
language help (sentence starters, structures, vocabulary) can be shown
while it is the top card. When the deck is used up an end screen offers a
restart, another topic or the menu.

This project models the controller of that game, the `ConversationCards`
class of `src/games/conversation-cards/game.js`, without its DOM rendering.
What remains is this state:

- the selected level and topic ids;
- the deck and the discard pile;
- the help switch;
- the single-flight lock of the animated draw;
- which screen was rendered last.

The class is imperative in the source and in the model. The lookups, the
URL normalisation and the stack arithmetic are pure functions. The
shuffle is an in-place loop over an array.

Modules:

- `Wrappers`: `Option` and `Result`.
- `Content`: the content document (levels → topics → cards with optional
  help), the `find` scan both lookups use, and the two lookups
  `getLevel`/`getTopic`, which throw when no element has the selected id. The throw is modelled as `Err`.
- `Deck`: the two piles as a value. It holds the draw (`deck.shift()`
  followed by `discard.unshift(next)`), what a draw keeps, and what k
  draws from a fresh deck leave.
- `Shuffle`: the Fisher–Yates loop of `shuffle(arr)` on an `array`. The
  random index of each step is a nondeterministic choice in `[0, i]`, and
  a ghost sequence records the choices. It proves:
  - the result is a permutation;
  - every permutation is reachable;
  - on distinct cards, different choices give different orders.

  Together these say that the runs correspond one-to-one to the
  permutations. With a uniform random source, every order is therefore
  equally likely.
- `Config`: the public base URL and the asset URLs derived from it.
- `Stack`: how many layers each pile draws and the layer index of each
  layer.
- `Game`: the class `ConversationCards`.
  - Each button handler is a method. It requires the screen on which
    that button exists and keeps the class invariant `Valid()`.
  - `Valid()` has five parts:
    - the drawn cards, read in the order they were drawn, followed by the
      deck, are the order the last shuffle produced;
    - help is on only when there is a top card;
    - only a locked draw has a card in flight;
    - a screen is shown only when the lookups its render makes succeed,
      and the end screen means the deck is empty and no draw is running;
    - whenever a topic is selected, the last deal was a shuffle of that
      topic's cards. So on the board and on the end screen the two piles
      hold exactly the topic's cards.
  - The animated draw is two steps: `RequestDraw` (the click, up to the
    first timer) and `Arrive` (the code after the timers).

A failing lookup inside a render throws in the source. That aborts the
handler after the state changes it already made, and leaves the previous
screen on the page. The model follows this: the view stays as it was,
and the earlier assignments persist.

The base-URL normalisation `replace(/\/?$/, "/")` appends a `/` only when
the string does not already end in one. A base ending in `//` therefore
keeps both slashes: the result ends in a slash, but not necessarily in
exactly one. The model follows the code.

## Model

| member | source | states |
|---|---|---|
| Content.FindFirst | src/games/conversation-cards/game.js:543 | the `find` scan (used on levels here and on topics at line 550): the element found has the selected id and is the first one with that id; nothing is found exactly when no element has it |
| Content.GetLevelSpec | src/games/conversation-cards/game.js:542-546 | `getLevel` returns the first level whose id equals `levelId`; it fails with "level not found" exactly when no level has that id |
| Content.GetTopicSpec | src/games/conversation-cards/game.js:548-553 | `getTopic` fails with "level not found" exactly when `getLevel` fails; it fails with "topic not found" exactly when the level exists but none of its topics has `topicId`; otherwise it returns the first matching topic of that level |
| Content.ListedTopicFound | src/games/conversation-cards/game.js:174-191 | a topic button lists a topic of the level found, and looking up that topic's id in that level then succeeds |
| Deck.Draw | src/games/conversation-cards/game.js:351-353 | a draw removes the head of the deck and puts that same card at index 0 of the discard pile, the rest of the discard pile unchanged; on an empty deck neither pile changes |
| Deck.DrawKeepsCards | src/games/conversation-cards/game.js:351-353 | a draw keeps the combined multiset of deck and discard pile and the sum of their lengths |
| Deck.DrawKeepsOrder | src/games/conversation-cards/game.js:365-366 | a draw keeps the dealt order: the discard pile reversed, followed by the deck, is the same before and after |
| Deck.ReverseMultiset | src/games/conversation-cards/game.js:366 | reversing a pile keeps its cards and their multiplicities |
| Deck.DrawsFromFreshDeck | src/games/conversation-cards/game.js:364-367 | after k draws from a freshly dealt deck s, the deck is s without its first min(k, \|s\|) cards and the discard pile is those cards reversed |
| Deck.DrawFromFreshDeck | src/games/conversation-cards/game.js:351-352 | one draw after m cards of a fresh deck moves card m: the deck loses its head and the reversed prefix grows by it; on a used-up deck nothing moves |
| Deck.ShiftUnshift | src/games/conversation-cards/game.js:351-352 | the transfer as written, with `undefined` as `None`: on a non-empty deck it moves the head card onto the discard pile |
| Deck.ShiftUnshiftAgreesOnCards | src/games/conversation-cards/game.js:351-352 | on a non-empty deck the transfer as written and the guarded Draw give the same piles |
| Deck.ShiftUnshiftOnEmptyDeck | src/games/conversation-cards/game.js:351-352 | on an empty deck the transfer as written adds an `undefined` entry to the discard pile, while Draw leaves both piles alone |
| Shuffle.Swap | src/games/conversation-cards/game.js:563 | the destructuring swap exchanges positions i and j and leaves every other position alone |
| Shuffle.SwapPermutes | src/games/conversation-cards/game.js:563 | a swap keeps the multiset of the array |
| Shuffle.ValidDrawsByPosition | src/games/conversation-cards/game.js:561-562 | the recorded choices are valid exactly when each choice is at most the position it was drawn for |
| Shuffle.CompleteDrawsByPosition | src/games/conversation-cards/game.js:561-562 | a whole run's choice for position m + 1 lies in [0, m + 1], for every m, and conversely |
| Shuffle.SwapStepsPermutes | src/games/conversation-cards/game.js:560-566 | any sequence of loop steps keeps the multiset of the array |
| Shuffle.ShuffleInPlace | src/games/conversation-cards/game.js:560-566 | the loop makes one choice j in [0, i] for each i from n - 1 down to 1, leaves the array permuted by exactly those swaps, and keeps its multiset |
| Shuffle.ShuffleOrdersArePermutations | src/games/conversation-cards/game.js:560-566 | an order can result from a run of the shuffle if and only if it is a permutation of the input |
| Shuffle.EveryPermutationReachable | src/games/conversation-cards/game.js:560-566 | for every permutation of the input, some valid sequence of choices produces it |
| Shuffle.DifferentDrawsDifferentOrders | src/games/conversation-cards/game.js:560-566 | on distinct cards, two runs that end in the same order made the same choices |
| Shuffle.ShuffledCopy | src/games/conversation-cards/game.js:537 | `shuffle([...topic.cards])` returns an order that some run of the shuffle produces from the copy, hence a permutation of the topic's cards |
| Config.NormalizeBase | src/games/conversation-cards/game.js:10 | the normalised base ends in `/`; a base already ending in `/` is kept as it is, and any other gets one `/` appended |
| Config.NormalizeIdempotent | src/games/conversation-cards/game.js:10 | normalising twice gives the same result as normalising once |
| Config.PublicBase | src/games/conversation-cards/game.js:10 | an unset or empty host global gives `/`; a non-empty one gives that string, with at most one `/` added, ending in `/` |
| Config.GameBase | src/games/conversation-cards/game.js:11 | the game directory is the public base followed by `games/conversation-cards/` and ends in `/` |
| Stack.VisibleCount | src/games/conversation-cards/game.js:223-224 | the number of drawn layers is the pile size capped at 20 |
| Stack.LayerIndex | src/games/conversation-cards/game.js:385 | the layer index is the depth capped at 19, so it always falls inside the 20-entry offset table |
| Stack.BuildBackStack | src/games/conversation-cards/game.js:373-393 | an empty pile shows only the drop zone; otherwise the pile has n face-down layers, from depth n - 1 at the bottom to depth 0 on top, each with the capped layer index; for n ≤ 20 the layers strictly decrease upward |
| Stack.BuildFaceStack | src/games/conversation-cards/game.js:395-433 | without a top card only the drop zone is shown; otherwise max(1, n) layers, blank ones below and the top card's question on the last one at layer 0, with capped and (for n ≤ 20) strictly decreasing layer indices |
| Game.ConversationCards.PilesHoldTheDeal | src/games/conversation-cards/game.js:535-540 | deck and discard pile together always hold exactly the cards of the last deal |
| Game.ConversationCards.PilesHoldTheTopic | src/games/conversation-cards/game.js:535-540 | on the board and on the end screen, deck and discard pile together hold exactly the selected topic's cards, each as often as the topic has it |
| Game.ConversationCards.Top | src/games/conversation-cards/game.js:248 | there is a top card exactly when the discard pile is non-empty, and it is the discard pile's first element |
| Game.ConversationCards.constructor | src/games/conversation-cards/game.js:36-73 | empty-string page options count as absent. With a level and a topic the deck is dealt (a permutation of the topic's cards) and the board shown, or nothing is rendered when the lookup fails. With a level only, the topic screen is shown, or nothing is rendered when the level is unknown. Without a level, the home screen is shown. The discard pile is empty, help is off and the lock is free |
| Game.ConversationCards.StartDeck | src/games/conversation-cards/game.js:535-540 | succeeds exactly when the topic lookup does. Then the deck is an order one run of the shuffle produces from the topic's cards (so a permutation of them), the discard pile is empty and help is off, whatever the piles held before. On failure nothing changes |
| Game.ConversationCards.Transfer | src/games/conversation-cards/game.js:351-353 | the piles become Draw of the old piles, their combined cards are unchanged, help is switched off, and the dealt order is kept |
| Game.ConversationCards.RequestDraw | src/games/conversation-cards/game.js:288-307 | while the lock is held, a click changes nothing. On an empty deck it shows the end screen and leaves the piles and the lock untouched. Otherwise it takes the lock: with both stacks on the page the head card starts flying, and the piles are unchanged. Without them the card is drawn at once, help is switched off, the board is shown and the lock is released |
| Game.ConversationCards.Arrive | src/games/conversation-cards/game.js:351-361 | corrected arrival: the piles become Draw of the current piles, help is off, the lock is released and nothing is in flight; the board is shown when its lookups succeed, otherwise the screen stays |
| Game.ConversationCards.ArriveAsWritten | src/games/conversation-cards/game.js:351-361 | arrival as written: the same transfer; when the board's lookup fails, the screen stays and the lock stays held with nothing in flight |
| Game.ConversationCards.Stacks | src/games/conversation-cards/game.js:223-246 | the board's two piles: each empty pile shows its drop zone; otherwise the deck pile shows min(\|deck\|, 20) face-down layers and the discard pile min(\|discard\|, 20) layers with the top card's question on the last one at layer 0; every layer index has an offset entry and layers strictly decrease upward |
| Game.ConversationCards.ToggleHelp | src/games/conversation-cards/game.js:265-274 | with a top card the help switch flips; while the discard pile is empty the button is disabled and nothing changes |
| Game.ConversationCards.ToggleHelpTwice | src/games/conversation-cards/game.js:271-274 | two help clicks restore the help switch |
| Game.ConversationCards.Restart | src/games/conversation-cards/game.js:213-216 | restart on the board or the end screen: the deck is a fresh permutation of the topic's cards and the discard pile is empty (contents replaced, never appended to); help is off and the board is shown |
| Game.ConversationCards.ShowTopics | src/games/conversation-cards/game.js:516-517 | "Temi" / "Cambia tema" shows the topic screen of the current level and keeps the invariant |
| Game.ConversationCards.ShowHome | src/games/conversation-cards/game.js:161-162 | every "Menu" button shows the home screen and keeps the invariant |
| Game.ConversationCards.ChooseLevel | src/games/conversation-cards/game.js:145-149 | choosing a level stores its id and clears the topic; the level lookup then finds a level with that id, and the topic lookup fails with "topic not found" |
| Game.ConversationCards.ChooseTopic | src/games/conversation-cards/game.js:187-191 | choosing a topic stores its id, the topic lookup succeeds, the deck is dealt as a permutation of that topic's cards with an empty discard pile and help off, and the board is shown |
| Game.ConversationCards.StuckLockScenario | src/games/conversation-cards/game.js:351-361 | a draw started, then "Menu" and a level choice during the flight, then the arrival as written: the lock stays held with no card in flight, so by RequestDraw every later click on the deck does nothing |

## Left out

- DOM construction and rendering (`renderShell`, `renderHome`, `renderTopicSelect`, `renderBoard`, `renderEnd`, `helpPanel`, `helpBlock`, `headBtn`, and `el`/`clear` in `src/core/ui.js`): only the screen chosen is modelled, and the lookups each render makes.
- The animation geometry and timing of the draw (bounding rectangles, pixel arithmetic, `sleep`, fly-card classes): the draw is reduced to its start and its arrival. The choice between the animated and the immediate path depends on whether both stacks are on the page, which becomes the parameter `anchored`. The `!nextCard` test never fires for a real card.
- `makeJitter` and `applyStackTransforms`: floating-point random offsets and CSS properties. Only the fact that every layer index finds an entry in the 20-entry table is modelled.
- Audio (`initSfx`, `playSfx`): browser API whose failures are ignored.
- `loadContent`: network I/O. The content document is a constructor parameter.
- `Math.random`: floating-point randomness. Each choice of the shuffle is a nondeterministic index in `[0, i]`, and the one-to-one correspondence between runs and permutations stands in for uniformity.
- The icon and label tables `LEVEL_ICON`, `TOPIC_ICON` and the labels shown: presentation only.
- Events on screens that are gone: each handler requires the screen its button is on. The source removes a screen's buttons when it renders another, so a handler is never called from another screen.
- `src/games/conversation-cards/entry.js`, `src/core/embed.js` and `src/core/router.js` (mount and boot glue), the WordPress plugin, `vite.config.js` and `scripts/copy-public-to-plugin.mjs` (packaging and host): these are not part of this model.
- Game.ConversationCards.ArriveAsWritten: uses the guarded Draw for the transfer. The unguarded `shift`/`unshift` on an empty deck is modelled separately by Deck.ShiftUnshift, because the class's piles hold cards and cannot hold `undefined`.

## Findings

| source | as written | input that shows it | evidently intended | confidence | as-written member | corrected member |
|---|---|---|---|---|---|---|
| src/games/conversation-cards/game.js:351-352 | the arrival of an animated draw shifts the deck and unshifts the result without checking that the deck is still non-empty | start a draw, click "Temi" during the 400 ms flight and choose a topic with no cards: on arrival `deck.shift()` returns `undefined`, which is pushed onto the discard pile ("Viste: 1" with no card) | a transfer from an empty deck moves nothing | medium (not executed) | Deck.ShiftUnshiftOnEmptyDeck | Deck.Draw |
| src/games/conversation-cards/game.js:354-361 | the lock is released only after `renderBoard()` returns, and `renderBoard()` throws when the topic lookup fails | start a draw, click "Menu" during the flight and choose a level (which clears the topic): on arrival `getTopic` throws, `isAnimating` stays true, and every later click on the deck returns at once, until the page is reloaded | the lock is released whatever the render does | high (not executed) | Game.ConversationCards.StuckLockScenario | Game.ConversationCards.Arrive |

In both cases the card that arrives is the head of the deck at arrival
time, not the card shown flying. After a restart or a topic change
during the flight they differ. Game.ConversationCards.Arrive keeps this
behaviour of the source.

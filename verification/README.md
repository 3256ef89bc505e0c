# TermFlip in Dafny

TermFlip is a browser memory game for learning terms. The player pastes term/definition pairs
into a text area, either as a JSON array or as plain text with one line per term and one per
definition. The game turns each pair into two cards, shuffles them onto a board and lets the
player turn cards over two at a time until every term has found its definition. A move counter
and a `MM:SS` clock run while the game is played, and a theme button switches between a light
and a dark look.

This project models the `TermFlipGame` class of `TermFlip/js/app.js` and proves what it
promises:

- `text.dfy` (`Text`): JavaScript's `trim` and one-character `split`, plus `join` as the
  inverse of `split`.
- `input.dfy` (`Input`): `validateInput` and `parseInput`. It shows when input is accepted, the
  message shown for it, and the pairs that plain text yields.
- `shuffle.dfy` (`Shuffle`): `shuffleArray`, the in-place Fisher–Yates pass over an array.
  - The random index drawn at each step is an input.
  - The outcome is a function of those draws, proved to be a permutation.
  - Every permutation is proved to be reachable.
- `deck.dfy` (`Deck`): cards and decks.
  - Cards are objects whose `flipped`/`matched` state changes.
  - The loop that builds the deck gives one term card and one definition card per pair.
  - The match test.
- `game.dfy` (`Game`): the game object and the handlers that change it.
  - Its fields are the cards, the face-up cards, the counters, the theme and the mismatch
    resets still waiting on their timeout.
  - The handlers are `handleCardClick`/`checkMatch`, the timeout of a mismatch,
    `restartGame`, `parseAndStartGame` and `toggleTheme`.
  - Each handler keeps the invariant `Valid`: at most two cards are face up for comparison.
- `clock.dfy` (`Clock`): the clock text, with `Math.floor`, JavaScript's `%`,
  `Number.prototype.toString` and `padStart` written out.
- `theme.dfy` (`Theme`): the stored theme, the toggle and its icon.

The deferred reset of a mismatch (the `setTimeout` of `checkMatch`) is queued in
`pendingResets`. It happens when `ResolveMismatch` is called. Any interleaving of clicks,
restarts and timeouts is therefore a sequence of method calls, and each call keeps `Valid`.

Where the code and its informal description differ, the model follows the code. Three places
where this matters:

- `restartGame` only clears the counters and the face-up list. Cards keep their `flipped` and
  `matched` classes, and a pending mismatch reset still fires afterwards.
- `parseAndStartGame` does not clear the face-up list or pending resets.
- Plain text is accepted only with an even number of at least two non-blank lines.

## Model

| member | source | states |
|---|---|---|
| Text.Trim | TermFlip/js/app.js:51 | the trimmed text is no longer than the input; it is empty exactly when the input is all white space; otherwise it starts and ends with a non-space character |
| Text.TrimStartSuffix | TermFlip/js/app.js:51 | trimming the front removes only a prefix of white space and keeps the rest of the text |
| Text.TrimEndPrefix | TermFlip/js/app.js:51 | trimming the end removes only a suffix of white space and keeps the front of the text |
| Text.TrimBothEnds | TermFlip/js/app.js:51 | trimming both ends gives the empty text exactly for all-space input, and a text starting with a non-space character otherwise |
| Text.TrimInfix | TermFlip/js/app.js:51 | the trimmed text is exactly the part of the input between its leading and its trailing white space |
| Text.TrimKeeps | TermFlip/js/app.js:94-95 | a text with no white space at either end is left unchanged by trim |
| Text.TrimIdempotent | TermFlip/js/app.js:85 | trimming twice is trimming once |
| Text.Split | TermFlip/js/app.js:63 | split gives at least one piece, and no piece contains the separator |
| Text.JoinSplit | TermFlip/js/app.js:63 | joining the pieces of a split with the separator gives back the text |
| Text.SplitJoin | TermFlip/js/app.js:63 | splitting the join of separator-free pieces gives back the pieces |
| Text.JoinEnds | TermFlip/js/app.js:63 | a join whose last piece is not empty ends with that piece's last character, and starts with the first piece's first character when that piece is not empty |
| Input.NonBlank | TermFlip/js/app.js:63 | the filter keeps only lines that are not blank, and only lines of the input |
| Input.NonBlankKeeps | TermFlip/js/app.js:63 | the filter drops no line that is not blank |
| Input.NonBlankAppend | TermFlip/js/app.js:63 | the filter works line by line: filtering two runs one after the other is filtering each, so every non-blank line is kept as often as it occurs and in its place |
| Input.NonBlankOne | TermFlip/js/app.js:63 | a single line is kept exactly when it is not blank |
| Input.PlainLines | TermFlip/js/app.js:63 | every line the plain-text branch counts is not blank and holds no line break |
| Input.NonBlankAll | TermFlip/js/app.js:63 | when no line is blank, the filter keeps the lines as they are |
| Input.ValidateInput | TermFlip/js/app.js:50-76 | accepted input is never blank after trimming |
| Input.FeedbackMessages | TermFlip/js/app.js:50-76 | the start button is enabled exactly when one of the two success messages is shown |
| Input.BlankRejected | TermFlip/js/app.js:51-55 | blank input is refused with an empty message, and it parses to no pairs |
| Input.StructuredValidIffParses | TermFlip/js/app.js:58-61 | text starting with `[` is accepted exactly when the JSON parser accepts it, which is exactly when parsing it succeeds |
| Input.PlainValidIffPairs | TermFlip/js/app.js:63-70 | plain text is accepted exactly when parsing it succeeds with at least one pair |
| Input.AcceptedParses | TermFlip/js/app.js:183-185 | input that validation accepts always parses |
| Input.PairUp | TermFlip/js/app.js:92-97 | `2N` lines give `N` pairs; pair `k` is lines `2k` and `2k + 1`, trimmed, in order |
| Input.PairLines | TermFlip/js/app.js:92-97 | the loop yields the pairs of consecutive lines for an even count; for an odd count the last `lines[i + 1].trim()` throws (`None`) |
| Input.Parsed | TermFlip/js/app.js:84-101 | for plain text, parsing succeeds exactly when the non-blank lines are even in number, and then gives half as many pairs as lines |
| Input.ParseInput | TermFlip/js/app.js:84-101 | parsing gives the oracle's pairs for `[` text, the paired-up non-blank lines for plain text with an even count, and fails otherwise |
| Input.PairUpTrimmed | TermFlip/js/app.js:94-95 | lines that are already trimmed pair up unchanged |
| Input.CleanLinesTrimmed | TermFlip/js/app.js:94-95 | lines typed without surrounding white space are their own trimmed form |
| Input.JoinedTrimmed | TermFlip/js/app.js:51 | clean lines typed one per line are unchanged by the initial trim |
| Input.JoinedLines | TermFlip/js/app.js:63 | clean lines typed one per line split and filter back to those lines |
| Input.TypedLines | TermFlip/js/app.js:63-66 | clean lines typed one per line, the first not starting with `[`, are accepted exactly when there are an even number of at least two; then they parse to the consecutive pairs, in order |
| Input.TypedLinesWithBlanks | TermFlip/js/app.js:63-66 | with blank lines anywhere between a clean first and last line, the blank lines are skipped: the input is accepted exactly when the non-blank lines are an even number of at least two, and then it parses to those lines paired in order |
| Input.RepeatedLinesKept | TermFlip/js/app.js:91-97 | a repeated line is kept each time it occurs, so two equal terms with two equal definitions make two pairs, even with a blank line between |
| Shuffle.Swap | TermFlip/js/app.js:177 | the swap exchanges the elements at `i` and `j` and leaves every other position as it was |
| Shuffle.Pass | TermFlip/js/app.js:175-178 | the rest of the pass keeps the length |
| Shuffle.FisherYates | TermFlip/js/app.js:174-180 | the shuffle keeps the length; `FisherYatesPermutes` and `FisherYatesReaches` state what it yields |
| Shuffle.SwapPermutes | TermFlip/js/app.js:177 | a swap keeps the length and the elements, each as often |
| Shuffle.PassPermutes | TermFlip/js/app.js:175-178 | the rest of the pass from any index is a permutation |
| Shuffle.FisherYatesPermutes | TermFlip/js/app.js:174-180 | the shuffle keeps the length and is a permutation of its input |
| Shuffle.FisherYatesReaches | TermFlip/js/app.js:174-180 | every permutation of the input is the outcome of some valid draws |
| Shuffle.PassReaches | TermFlip/js/app.js:175-178 | any arrangement that agrees beyond index `i` and permutes the prefix is reached by the rest of the pass |
| Shuffle.DrawsTail | TermFlip/js/app.js:176 | after one draw, the remaining draws stay in range for the remaining turns |
| Shuffle.ShuffleArray | TermFlip/js/app.js:174-180 | the array afterwards is the Fisher–Yates outcome of its old contents for the given draws |
| Deck.Card.constructor | TermFlip/js/app.js:103-116 | a new card carries its content, side and pair index, shows its back and is not matched |
| Deck.IsMatch | TermFlip/js/app.js:139-140 | two cards match when they carry the same pair index and different sides; matching faces are always different faces |
| Deck.MatchSymmetric | TermFlip/js/app.js:139-140 | matching does not depend on which card was turned first, and no card matches itself |
| Deck.DeckSpec | TermFlip/js/app.js:191-194 | the deck of `N` pairs has `2N` cards |
| Deck.DeckSpecAt | TermFlip/js/app.js:191-194 | card `2i` is pair `i`'s term and card `2i + 1` is its definition, both tagged `i` |
| Deck.DeckTagsOnce | TermFlip/js/app.js:191-194 | each pair index below `N` appears on exactly one card per side, and no other index appears |
| Deck.MatchPartners | TermFlip/js/app.js:139-140 | two deck positions match exactly when they hold the two cards of one pair |
| Deck.EveryCardHasPartner | TermFlip/js/app.js:191-196 | in any arrangement of the deck, every card has a matching card at another position |
| Deck.FacesSwap | TermFlip/js/app.js:177 | the faces follow their cards through a swap |
| Deck.ShuffledFaces | TermFlip/js/app.js:196 | shuffling cards shuffles their faces the same way, keeping each face as often |
| Deck.BuildDeck | TermFlip/js/app.js:191-194 | the loop creates distinct new face-down, unmatched cards whose faces are the deck in push order |
| Game.DealtPermutes | TermFlip/js/app.js:196 | a dealt board holds the deck's `2N` faces, each once, in some order |
| Game.AnyOrderDealt | TermFlip/js/app.js:196 | every arrangement of the deck can be dealt |
| Game.ShuffleDeals | TermFlip/js/app.js:196 | shuffling the new deck deals it, using the same cards |
| Game.NewBoard | TermFlip/js/app.js:186-194 | the new board array holds new face-down cards whose faces are the deck in push order |
| Game.Deal | TermFlip/js/app.js:186-196 | the board is a new array of new, face-down, unmatched cards showing a shuffle of the deck |
| Game.AllPairsMatched | TermFlip/js/app.js:148 | `matchedPairs === cards.length / 2`, with JavaScript's division, holds exactly when twice the matched pairs is the card count |
| Game.AllPairsMatchedMeans | TermFlip/js/app.js:148 | the completion test holds exactly when twice the matched pairs equals the card count; an odd count never completes |
| Game.TermFlipGame.constructor | TermFlip/js/app.js:6-37 | a new game has no cards, no face-up cards, zero counters and the stored theme (light when none) |
| Game.TermFlipGame.CheckMatch | TermFlip/js/app.js:137-158 | two cards with the same pair and different sides become matched; the pair count rises and the face-up list empties; completion is reported exactly when all pairs are matched. Otherwise both cards stay face up and their reset is queued |
| Game.TermFlipGame.HandleCardClick | TermFlip/js/app.js:118-135 | with two cards face up, or on a face-up or matched card, a click changes nothing; otherwise the card turns face up; the move count rises by one exactly on the second card, and the two are then compared; `Valid` is kept |
| Game.TermFlipGame.ResolveMismatch | TermFlip/js/app.js:152-156 | the oldest queued mismatch turns both its cards face down, the face-up list empties, and `Valid` is kept |
| Game.TermFlipGame.RestartGame | TermFlip/js/app.js:218-226 | the same cards are shuffled in place (a permutation, by some draws); counters and the face-up list are cleared; pending resets and the theme are kept |
| Game.TermFlipGame.DealNewGame | TermFlip/js/app.js:186-197 | a new board dealt from the pairs replaces the cards and the counters are cleared; the face-up list, pending resets and theme are kept |
| Game.TermFlipGame.ParseAndStartGame | TermFlip/js/app.js:182-198 | a game starts exactly when validation accepts the input; refused input changes nothing; accepted input parses, and its pairs are dealt onto a new board with the counters cleared |
| Game.TermFlipGame.ToggleTheme | TermFlip/js/app.js:254-259 | the theme becomes its toggled value and nothing else changes |
| Clock.Numeral | TermFlip/js/app.js:164-165 | a numeral is a non-empty string of digits with no leading zero |
| Clock.NumeralValue | TermFlip/js/app.js:164-165 | reading a numeral back gives its number |
| Clock.ToString | TermFlip/js/app.js:164-165 | the text of an integer is non-empty and all digits exactly when the integer is not negative; a negative integer gives `-` followed by the digits of its magnitude |
| Clock.PadStart | TermFlip/js/app.js:164-165 | the padded text is as long as the target length, or unchanged when already longer |
| Clock.PadStartKeeps | TermFlip/js/app.js:164-165 | padding adds only fill characters in front and keeps the text at the end |
| Clock.PadValue | TermFlip/js/app.js:164-165 | padding digits with zeros keeps them digits with the same value |
| Clock.PaddedCount | TermFlip/js/app.js:164-165 | a count padded to two is digits with the count's value; it is exactly two long below 100 |
| Clock.FormatElapsed | TermFlip/js/app.js:163-166 | the clock text is at least five characters long; `FormatShape`, `ClockRoundTrip` and `NegativeClock` state its contents |
| Clock.ElapsedSeconds | TermFlip/js/app.js:163 | the whole seconds are the milliseconds divided by 1000, rounded down; they are not negative when the clock has not gone back |
| Clock.JsRemainder | TermFlip/js/app.js:165 | the remainder lies in `[0, 60)` for a non-negative dividend and in `(-60, 0]` for a negative one |
| Clock.MinutesSeconds | TermFlip/js/app.js:164-165 | minutes and seconds recombine to the elapsed seconds; seconds are below 60; under 6000 seconds the minutes are below 100 |
| Clock.FormatShape | TermFlip/js/app.js:163-166 | for elapsed `e >= 0` the text is the digits of `e / 60`, a colon and two digits of `e % 60`; it is exactly five characters long when `e < 6000` |
| Clock.ClockRoundTrip | TermFlip/js/app.js:163-166 | reading the clock text back gives the elapsed seconds |
| Clock.NegativeClock | TermFlip/js/app.js:163-166 | five seconds before the start the clock shows `-1:-5`, which is not a clock reading |
| Theme.InitialTheme | TermFlip/js/app.js:32 | the theme is never empty; a stored non-empty theme is kept; a missing or empty one gives light |
| Theme.Toggled | TermFlip/js/app.js:255 | the toggled theme is light or dark and differs from the old one; it is dark exactly when the old one was light |
| Theme.ToggleTwice | TermFlip/js/app.js:255 | toggling twice gives the theme back exactly when it is light or dark |
| Theme.Icon | TermFlip/js/app.js:262 | the icon is the sun exactly for the light theme, and the moon otherwise |
| Theme.ToggleChangesIcon | TermFlip/js/app.js:254-262 | on a light or dark theme, each toggle changes the icon |

## Left out

- The page is not modelled: DOM elements, classes, the text area, `innerHTML`, `updateFeedback`'s colours, `startGame`, `showInputScreen` and `endGame`'s modal. `endGame` appears only as the `completed` result of `CheckMatch` and `HandleCardClick`.
- `JSON.parse` is not modelled. An oracle gives the pairs that structured text denotes, or `None` when the parser throws. Text that parses as JSON but is not an array of `{term, definition}` objects is outside the model.
- `Math.random` is not modelled. Each shuffle takes its draws as input (`ShuffleArray`), or chooses any valid draws (`Deal`, `RestartGame`), so every outcome is allowed.
- `Date.now`, `setInterval`, `clearInterval` and `setTimeout` are not modelled.
  - The clock's time stamps are parameters of `ElapsedSeconds`.
  - Starting a game again starts another interval without stopping the old one. This is not modelled.
  - A mismatch's timeout fires when `ResolveMismatch` is called.
- `localStorage` is not modelled. The stored theme is a parameter of the constructor, and `toggleTheme`'s write back to storage is not modelled.
- `loadExample` is not modelled. It only fills the text area with a fixed JSON text and validates it.
- Clock.ToString: numbers of `1e21` and above, which JavaScript prints in exponent notation, are not modelled. The clock never reaches them.
- Deck.IsMatch: `checkMatch` compares `data-pair-id` attributes as strings. The model compares the indices as numbers. Decimal numerals identify indices, so the two tests agree.
- Clock.JsRemainder: states only the sign and bounds of the remainder. Its value for a non-negative dividend is stated by `Clock.MinutesSeconds`.

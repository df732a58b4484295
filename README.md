# HangAnimal word guess game in Dafny

A model of the game engine of the HangAnimal word guess game: the `game` object of
`assets/javascript/game.js` and the key handler that drives it. The page picks an
animal name from a fixed catalog and shows one underscore per letter. Each key
press guesses a letter. A letter in the word reveals every position where it
occurs. A miss costs one of five guesses. Completing the word wins and adds one
to the win counter. Running out of guesses loses and shows the word. The next
key press after a finished game starts a new one.

The project has two modules:

- `GameRules` (`game_rules.dfy`) works on values. It holds the catalog and a
  `Snapshot` of the game object's fields. It states the transitions as
  functions: `NewGame` for `initGame`, `Round` for `playRound` (built from its
  three blocks `Guess`, `WinCheck` and `LossCheck`), `KeyStep` for the key
  handler and `Play` for a sequence of keys passed to `playRound` one after
  another, without the handler's reset. The lemmas state what those
  transitions promise. The game invariant `Inv` says:
  - `guessesLeft` is five minus the number of distinct misses;
  - `correctNumChars` is the number of revealed positions;
  - the slots show the guessed letters (or, after a loss, the whole word);
  - the three `gameState` flags match the counters.
- `WordGuessGame` (`game.dfy`) has the class `Game` with the object's fields
  (`correctGuesses` is an array). Its methods update the fields in place, as the
  source does. Each method's postcondition ties the new field values to the
  `GameRules` transition applied to the old ones. `OnKeyUp` is the handler's
  reset-then-play step and keeps the object invariant `Valid`.

Two behaviours of the code shape what can be proved, and the model keeps both:

- `decrementGuesses` does not clamp `guessesLeft` at zero. It is an `int`, and
  `DecrementGuesses` subtracts one unconditionally.
- Instead, `KeyStepKeepsInv` proves that the key handler never lets it drop
  below zero.
- `playRound` on its own does not keep a finished game unchanged:
  `WonGameRescores` shows that a new key on a won game counts a second win.
  Only the handler's reset stops `playRound` from changing a finished game,
  by replacing it with a new one first.

## Model

| member | source | states |
|---|---|---|
| GameRules.CatalogWords | assets/javascript/game.js:3-20 | Every catalog name is a non-empty word of at most eight lower-case letters. |
| GameRules.IndexMapPartitions | assets/javascript/game.js:38-50 | The map `makeWordMap` builds holds index j under letter c exactly when the word has c at j. So its index sets are pairwise disjoint and together cover every index. |
| GameRules.MergeIndex | assets/javascript/game.js:41-48 | One loop iteration adds index i to its letter's entry, creating the entry if it is missing. This keeps "every letter seen so far maps to its positions so far". |
| GameRules.FreshIndexMap | assets/javascript/game.js:69-73 | A map with an entry for exactly the word's letters, each holding that letter's positions, is exactly the letter-to-positions map. This is what `makeWordMap` leaves in the empty map `initGame` sets up. |
| GameRules.LetterIffPositions | assets/javascript/game.js:105-106 | `wordMap.get(char)` finds an entry exactly when char has at least one position in the word. |
| GameRules.NewGameInv | assets/javascript/game.js:60-75 | The state `initGame` leaves satisfies the game invariant: a catalog word, no guesses, count 0, five guesses left, in progress, one placeholder per letter, wins kept. |
| GameRules.RepeatGuessIdempotent | assets/javascript/game.js:100-102 | A key already guessed leaves the whole state unchanged and shows the notice. |
| GameRules.HitReveals | assets/javascript/game.js:104-111 | A new key occurring k > 0 times sets exactly its k slots and leaves the others alone. It adds k to the count, costs no guess and is recorded. |
| GameRules.MissCosts | assets/javascript/game.js:112-115 | A new key not in the word costs exactly one guess and leaves the count alone. It is recorded. The slots stay unless that was the last guess, which shows the word. |
| GameRules.HitNeverLoses | assets/javascript/game.js:104-121 | From an in-progress game, a new letter of the word keeps every guess and never loses. The invariant holds after it, and wins rises by one exactly when it wins. |
| GameRules.RoundConsistent | assets/javascript/game.js:99-129 | Any `playRound`, in any state, keeps one slot per letter, the count equal to the revealed positions, and the slots showing the guesses or the whole word. |
| GameRules.RoundKeepsInv | assets/javascript/game.js:99-129 | Played on an in-progress game, `playRound` keeps the game invariant. So the count stays within the word length and guessesLeft stays at zero or above. |
| GameRules.RoundOutcome | assets/javascript/game.js:117-127 | From an in-progress game: won iff every letter is guessed, and then wins +1 and the word shows. Otherwise wins is unchanged. Lost iff no guess is left, and then the word shows. |
| GameRules.WonIffComplete | assets/javascript/game.js:117-121 | Under the invariant, the game is won exactly when every letter of the word has been guessed. |
| GameRules.RoundWins | assets/javascript/game.js:117-121 | A key that completes the word is a hit and spends no guess, so from an in-progress game the loss check never follows a win. A winning round adds exactly one win, and any other round adds none. |
| GameRules.WonGameRescores | assets/javascript/game.js:99-129 | `playRound` has no guard for a finished game. On a won game a new key is a miss that counts another win, and the last guess turns it into a loss. |
| GameRules.KeyStepKeepsInv | assets/javascript/game.js:160-169 | The handler (reset a finished game, then play) keeps the game invariant. So guessesLeft is never negative, and wins rises by one exactly on a winning key. |
| GameRules.RevealedBounds | assets/javascript/game.js:117-121 | The revealed count never exceeds the word length. It equals the length exactly when every letter of the word has been guessed. |
| GameRules.RevealedAdd | assets/javascript/game.js:107-111 | Guessing a new key reveals exactly its positions on top of those already revealed. The count grows by their number. |
| GameRules.MissesAdd | assets/javascript/game.js:112-115 | A new key that is a letter leaves the misses as they are. Any other new key adds exactly one miss. |
| GameRules.PatchSlots | assets/javascript/game.js:107-111 | Filling in a new letter's positions turns the slots for the old guesses into the slots for the new ones. A shown word stays shown. |
| GameRules.MaskedComplete | assets/javascript/game.js:117-121 | Once every letter is guessed, the slots spell the whole word. |
| GameRules.SpellingPrefix | assets/javascript/game.js:99-129 | Calling `playRound` with each of the word's first k letters in turn on a new game (no handler reset) guesses them without spending a guess or losing. Wins rises by one exactly if that wins. |
| GameRules.SpellingWins | assets/javascript/game.js:99-129 | Calling `playRound` with a catalog word's letters in turn on a new game (no handler reset) wins it with all five guesses left. Wins goes up by one and the word shows. A repeated letter after the win is a repeat to `playRound`; through the handler it would start a new game. |
| GameRules.MissingPrefix | assets/javascript/game.js:112-127 | Calling `playRound` with k of five distinct non-letters in turn on a new game (no handler reset) spends k guesses and reveals nothing. The fifth loses and shows the word, with wins unchanged. |
| GameRules.MissesLose | assets/javascript/game.js:112-127 | Five distinct misses passed to `playRound` in turn lose a new game with no guess left. Nothing is counted, the word shows and wins is unchanged. |
| GameRules.TigerWin | assets/javascript/game.js:99-129 | On "tiger", `playRound` with t, i, g, e, r in turn wins with five guesses left and shows t i g e r. |
| GameRules.TigerLoss | assets/javascript/game.js:99-129 | On "tiger", `playRound` with x, y, z, q, w in turn loses with no guess left and nothing counted. The word is shown. |
| WordGuessGame.Game.constructor | assets/javascript/game.js:24-36 | The object literal followed by the first `initGame` gives a valid new game with no wins. |
| WordGuessGame.Game.MakeWordMap | assets/javascript/game.js:38-50 | After the loop, every letter of the word (and every old key) has an entry, holding its old indices plus all its positions in the word. |
| WordGuessGame.Game.InitCorrectGuessesArray | assets/javascript/game.js:52-58 | `correctGuesses` becomes a new array with one placeholder per letter of the word. |
| WordGuessGame.Game.InitGame | assets/javascript/game.js:60-75 | The fields become the new game on the picked catalog word with wins kept, and the object invariant holds. |
| WordGuessGame.Game.DecrementGuesses | assets/javascript/game.js:77-79 | guessesLeft goes down by one, with no floor. Nothing else changes. |
| WordGuessGame.Game.AddGuess | assets/javascript/game.js:81-83 | The key joins the guessed set. Nothing else changes. |
| WordGuessGame.Game.IncrementWins | assets/javascript/game.js:85-87 | wins goes up by one. Nothing else changes. |
| WordGuessGame.Game.SetGameState | assets/javascript/game.js:89-93 | gameState holds exactly the three given flags. Nothing else changes. |
| WordGuessGame.Game.ShowWord | assets/javascript/game.js:95-97 | `correctGuesses` becomes a new array holding the word split into letters. |
| WordGuessGame.Game.RevealPositions | assets/javascript/game.js:106-111 | Every listed slot holds the key, every other slot is unchanged, and the count grows by the number of positions, in whatever order the set is visited. |
| WordGuessGame.Game.FillIn | assets/javascript/game.js:104-115 | The first block of a new key makes the `Guess` transition: fill in its positions or lose a guess, then record the key. |
| WordGuessGame.Game.CheckWin | assets/javascript/game.js:117-121 | The win check makes the `WinCheck` transition. |
| WordGuessGame.Game.CheckLoss | assets/javascript/game.js:123-127 | The loss check makes the `LossCheck` transition. |
| WordGuessGame.Game.PlayRound | assets/javascript/game.js:99-129 | The fields and the notice flag are exactly `Round` of the old fields. The bookkeeping is kept, and the object invariant too when the game was in progress. |
| WordGuessGame.OnKeyUp | assets/javascript/game.js:156-169 | The key handler makes the `KeyStep` transition and keeps the object invariant. So guessesLeft is never negative. |

## Left out

- `showGameState` and every other page update are not modelled: the DOM text, the end-game message, the animal picture and the capitalised name. They only read the game object.
- The `url` of each catalog entry is not modelled. The catalog is reduced to the ordered list of its `name` fields.
- `alert` for a repeated key is not modelled; `PlayRound` and `OnKeyUp` return a flag that says the notice would be shown.
- `Math.random` is not modelled. The caller supplies the catalog index `pick`, so every index in range is covered.
- The initial `null` values of `wordMap`, `guessedCharSet` and `correctGuesses` in the object literal are not modelled. The page runs `initGame` before any key press, and so does the constructor.
- `gameState` is an object whose flags `setGameState` sets one by one. It is modelled as a value that `SetGameState` replaces whole, since nothing else holds a reference to it.
- WordGuessGame.Game.RevealPositions: the order in which the source's `Set` iterator visits the positions is not modelled. The loop picks any position still to do, and the result does not depend on the order.
- A JavaScript array written past its end would grow. That case is not modelled, because every position written is below the word length.
- Keys are arbitrary strings, such as `"Shift"`, exactly as `event.key` delivers them. There is no case folding or filtering, as in the source.
- `wins` is an unbounded natural number. JavaScript numbers lose precision only far beyond any reachable win count.
- The three blocks of `playRound` are the methods `FillIn`, `CheckWin` and `CheckLoss`, and the reveal loop is `RevealPositions`. `PlayRound` calls them in the source's order.

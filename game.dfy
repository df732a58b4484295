/**
 * The `game` object of the word guess game as a class with the same fields,
 * its methods updating them in place, and the key handler's
 * reset-then-play step. Each method is proved to make the transition that
 * GameRules describes on a snapshot of the fields.
 */
module WordGuessGame {
  import opened GameRules

  class Game {
    var currentWord: string
    /** Each letter of the word mapped to the set of its indices. */
    var wordMap: map<string, set<nat>>
    var guessedCharSet: set<string>
    var correctNumChars: nat
    /** One slot per letter: the placeholder or the guessed letter. */
    var correctGuesses: array<string>
    var guessesLeft: int
    var wins: nat
    var gameState: GameState

    /** The fields as a value. */
    ghost function State(): Snapshot
      reads this, correctGuesses
    {
      Snapshot(currentWord, guessedCharSet, correctGuesses[..], correctNumChars, guessesLeft, wins, gameState)
    }

    /** What holds however `playRound` is called once `initGame` has run. */
    ghost predicate WellFormed()
      reads this, correctGuesses
    {
      wordMap == IndexMap(currentWord) && Consistent(State())
    }

    /** The object invariant kept by the key handler. */
    ghost predicate Valid()
      reads this, correctGuesses
    {
      WellFormed() && Inv(State())
    }

    /** The object literal followed by the first `initGame`. */
    constructor (pick: nat)
      requires pick < |Words|
      ensures Valid() && fresh(correctGuesses)
      ensures State() == NewGame(pick, 0)
    {
      currentWord := "";
      wordMap := map[];
      guessedCharSet := {};
      correctNumChars := 0;
      correctGuesses := new string[0];
      guessesLeft := AllowedGuesses;
      wins := 0;
      gameState := InProgress;
      new;
      InitGame(pick);
    }

    /** Adds every index of the word to the set of its letter. */
    method MakeWordMap()
      modifies this`wordMap
      ensures forall c :: c in wordMap <==> c in old(wordMap) || c in Letters(currentWord)
      ensures forall c :: c in wordMap ==> wordMap[c] == Lookup(old(wordMap), c) + Positions(currentWord, c)
    {
      var i := 0;
      while i < |currentWord|
        invariant i <= |currentWord|
        invariant MergedUpTo(old(wordMap), wordMap, currentWord, i)
      {
        var ch := [currentWord[i]];
        MergeIndex(old(wordMap), wordMap, currentWord, i);
        if ch in wordMap {
          wordMap := wordMap[ch := wordMap[ch] + {i}];
        } else {
          wordMap := wordMap[ch := {i}];
        }
        i := i + 1;
      }
    }

    /** Replaces the slots by one placeholder per letter of the word. */
    method InitCorrectGuessesArray()
      modifies this`correctGuesses
      ensures fresh(correctGuesses)
      ensures correctGuesses[..] == Placeholders(|currentWord|)
    {
      var slots := new string[|currentWord|];
      var i := 0;
      while i < slots.Length
        invariant i <= slots.Length
        invariant forall j :: 0 <= j < i ==> slots[j] == Placeholder
      {
        slots[i] := Placeholder;
        i := i + 1;
      }
      correctGuesses := slots;
    }

    /** Starts a game on catalog entry `pick`; `wins` is kept. */
    method InitGame(pick: nat)
      requires pick < |Words|
      modifies this
      ensures Valid() && fresh(correctGuesses)
      ensures State() == NewGame(pick, old(wins))
    {
      SetGameState(false, false, false);
      currentWord := Words[pick];
      wordMap := map[];
      guessedCharSet := {};
      correctNumChars := 0;
      guessesLeft := AllowedGuesses;
      MakeWordMap();
      assert forall c :: Lookup(map[], c) == {};
      FreshIndexMap(wordMap, currentWord);
      InitCorrectGuessesArray();
      assert wins == old(wins) && wordMap == IndexMap(currentWord);
      assert State() == NewGame(pick, wins);
      assert Inv(State()) by { NewGameInv(pick, wins); }
    }

    method DecrementGuesses()
      modifies this`guessesLeft
      ensures guessesLeft == old(guessesLeft) - 1
    {
      guessesLeft := guessesLeft - 1;
    }

    method AddGuess(key: string)
      modifies this`guessedCharSet
      ensures guessedCharSet == old(guessedCharSet) + {key}
    {
      guessedCharSet := guessedCharSet + {key};
    }

    method IncrementWins()
      modifies this`wins
      ensures wins == old(wins) + 1
    {
      wins := wins + 1;
    }

    method SetGameState(finished: bool, win: bool, loss: bool)
      modifies this`gameState
      ensures gameState == GameState(finished, win, loss)
    {
      gameState := GameState(finished, win, loss);
    }

    /** Replaces the slots by the letters of the word. */
    method ShowWord()
      modifies this`correctGuesses
      ensures fresh(correctGuesses)
      ensures correctGuesses[..] == Spelled(currentWord)
    {
      var w := currentWord;
      correctGuesses := new string[|w|](j requires 0 <= j < |w| => [w[j]]);
    }

    /** Sets every slot in positions to key, counting one correct character per slot. */
    method RevealPositions(positions: set<nat>, key: string)
      requires forall p :: p in positions ==> p < correctGuesses.Length
      modifies correctGuesses, this`correctNumChars
      ensures correctGuesses[..] == Patch(old(correctGuesses[..]), positions, key)
      ensures correctNumChars == old(correctNumChars) + |positions|
    {
      ghost var before := correctGuesses[..];
      var rest, done := positions, {};
      while rest != {}
        invariant rest <= positions && done == positions - rest
        invariant correctGuesses[..] == Patch(before, done, key)
        invariant correctNumChars == old(correctNumChars) + |done|
        decreases rest
      {
        var pos :| pos in rest;
        PatchAdd(before, done, pos, key);
        correctGuesses[pos] := key;
        correctNumChars := correctNumChars + 1;
        rest, done := rest - {pos}, done + {pos};
      }
    }

    /** The first block of a new key: fill in its positions or lose a guess, then record it. */
    method FillIn(key: string)
      requires WellFormed() && key !in guessedCharSet
      modifies this`correctNumChars, this`guessesLeft, this`guessedCharSet, correctGuesses
      ensures State() == Guess(old(State()), key)
    {
      LetterIffPositions(currentWord, key);
      if key in wordMap {
        RevealPositions(wordMap[key], key);
      } else {
        DecrementGuesses();
      }
      AddGuess(key);
    }

    /** The win check: every character counted means one more win and a won game. */
    method CheckWin()
      modifies this`wins, this`gameState
      ensures State() == WinCheck(old(State()))
    {
      if correctNumChars == |currentWord| {
        IncrementWins();
        SetGameState(true, true, false);
      }
    }

    /** The loss check: no guess left means a lost game with the whole word shown. */
    method CheckLoss()
      modifies this`gameState, this`correctGuesses
      ensures State() == LossCheck(old(State()))
    {
      if guessesLeft == 0 {
        SetGameState(true, false, true);
        ShowWord();
      }
    }

    /**
     * Plays one key. Returns true when the key was guessed before, in which
     * case only the "already guessed" notice is shown.
     */
    method PlayRound(key: string) returns (alreadyGuessed: bool)
      requires WellFormed()
      modifies this, correctGuesses
      ensures WellFormed()
      ensures (State(), alreadyGuessed) == Round(old(State()), key)
      ensures old(Valid()) && old(gameState) == InProgress ==> Valid()
    {
      ghost var s := State();
      if key in guessedCharSet {
        return true;
      }
      alreadyGuessed := false;
      FillIn(key);
      CheckWin();
      CheckLoss();
      assert wordMap == old(wordMap) && currentWord == s.word;
      assert State() == Round(s, key).0;
      assert Consistent(State()) by { RoundConsistent(s, key); }
      if Inv(s) && s.state == InProgress {
        assert Inv(State()) by { RoundKeepsInv(s, key); }
      }
    }
  }

  /**
   * The key handler without the page: a finished game is replaced by a new one
   * on catalog entry `pick` (the random choice, supplied by the caller), then
   * the key is played.
   */
  method OnKeyUp(game: Game, pick: nat, key: string) returns (alreadyGuessed: bool)
    requires game.Valid() && pick < |Words|
    modifies game, game.correctGuesses
    ensures game.Valid()
    ensures (game.State(), alreadyGuessed) == KeyStep(old(game.State()), pick, key)
    ensures 0 <= game.guessesLeft
  {
    if game.gameState.finished {
      game.InitGame(pick);
    }
    alreadyGuessed := game.PlayRound(key);
    KeyStepKeepsInv(old(game.State()), pick, key);
  }
}

/**
 * The rules of the word guess game ("HangAnimal") stated on values: the word
 * catalog, a snapshot of the fields of the game object, and the transitions
 * that one key press makes on them. The class in game.dfy is proved to follow
 * these transitions; the lemmas here state what the transitions promise.
 */
module GameRules {

  /** The names of the catalog entries, in the order `Object.keys` lists them. */
  const Words: seq<string> := ["giraffe", "elephant", "tiger", "unicorn"]

  /** Number of misses a game allows. */
  const AllowedGuesses: int := 5

  /** What a slot shows while its letter is still hidden. */
  const Placeholder: string := "_"

  /** The three flags of the game object's `gameState`. */
  datatype GameState = GameState(finished: bool, win: bool, loss: bool)

  const InProgress: GameState := GameState(false, false, false)
  const Won: GameState := GameState(true, true, false)
  const Lost: GameState := GameState(true, false, true)

  /**
   * The observable fields of the game object: `currentWord`, `guessedCharSet`,
   * `correctGuesses`, `correctNumChars`, `guessesLeft`, `wins` and `gameState`.
   * (`wordMap` is determined by the word; see IndexMap.)
   */
  datatype Snapshot = Snapshot(
    word: string,
    guessed: set<string>,
    slots: seq<string>,
    count: nat,
    left: int,
    wins: nat,
    state: GameState)

  // ---------------------------------------------------------------------------
  // Positions of letters in a word

  /** The indices below n at which w holds the one-character string c. */
  function PositionsUpTo(w: string, c: string, n: nat): set<nat>
    requires n <= |w|
  {
    set j: nat | j < n && [w[j]] == c
  }

  /** The indices at which w holds the one-character string c. */
  function Positions(w: string, c: string): set<nat>
  {
    PositionsUpTo(w, c, |w|)
  }

  /** The one-character strings occurring in w below index n. */
  function LettersUpTo(w: string, n: nat): set<string>
    requires n <= |w|
  {
    set j: nat | j < n :: [w[j]]
  }

  function Letters(w: string): set<string>
  {
    LettersUpTo(w, |w|)
  }

  /** What `makeWordMap` builds: each letter of w mapped to the set of its indices. */
  function IndexMap(w: string): map<string, set<nat>>
  {
    map c | c in Letters(w) :: Positions(w, c)
  }

  /** The value `wordMap.get(c)` would find, or the empty set for no entry. */
  function Lookup(m: map<string, set<nat>>, c: string): set<nat>
  {
    if c in m then m[c] else {}
  }

  /** All indices of a word of length n. */
  function Range(n: nat): set<nat>
  {
    if n == 0 then {} else Range(n - 1) + {n - 1}
  }

  /** The indices of w whose letter has been guessed. */
  function Revealed(w: string, guessed: set<string>): set<nat>
  {
    set j: nat | j < |w| && [w[j]] in guessed
  }

  /** The guesses that are not letters of w. */
  function Misses(w: string, guessed: set<string>): set<string>
  {
    guessed - Letters(w)
  }

  // ---------------------------------------------------------------------------
  // Slot sequences

  /** A fresh `correctGuesses`: n placeholders. */
  function Placeholders(n: nat): seq<string>
  {
    seq(n, _ => Placeholder)
  }

  /** The word split into one-character strings, as `showWord` sets it. */
  function Spelled(w: string): seq<string>
  {
    seq(|w|, j requires 0 <= j < |w| => [w[j]])
  }

  /** The word with every letter not yet guessed replaced by the placeholder. */
  function Masked(w: string, guessed: set<string>): seq<string>
  {
    seq(|w|, j requires 0 <= j < |w| => if [w[j]] in guessed then [w[j]] else Placeholder)
  }

  /** slots with every index in hits set to key. */
  function Patch(slots: seq<string>, hits: set<nat>, key: string): seq<string>
  {
    seq(|slots|, j requires 0 <= j < |slots| => if j in hits then key else slots[j])
  }

  /** Patching one more index is an update of the patched sequence. */
  lemma PatchAdd(slots: seq<string>, done: set<nat>, pos: nat, key: string)
    requires pos < |slots|
    ensures Patch(slots, done + {pos}, key) == Patch(slots, done, key)[pos := key]
  {
  }

  // ---------------------------------------------------------------------------
  // The transitions

  /** The state `initGame` leaves behind when it picks catalog entry `pick`. */
  function NewGame(pick: nat, wins: nat): Snapshot
    requires pick < |Words|
  {
    Snapshot(Words[pick], {}, Placeholders(|Words[pick]|), 0, AllowedGuesses, wins, InProgress)
  }

  /**
   * `playRound(key)`: the new state and whether the "already guessed" notice
   * is shown. A repeated key changes nothing. A new key is recorded; every
   * position of it is revealed and counted, or, when it occurs nowhere, one
   * guess is lost. Then the win check runs before the loss check.
   */
  function Round(s: Snapshot, key: string): (Snapshot, bool)
  {
    if key in s.guessed then (s, true)
    else (LossCheck(WinCheck(Guess(s, key))), false)
  }

  /** A new key: its positions are revealed and counted, or one guess is lost; then it is recorded. */
  function Guess(s: Snapshot, key: string): Snapshot
  {
    var hits := Positions(s.word, key);
    if hits != {} then s.(slots := Patch(s.slots, hits, key), count := s.count + |hits|, guessed := s.guessed + {key})
    else s.(left := s.left - 1, guessed := s.guessed + {key})
  }

  /** Every character counted: one more win and the game is won. */
  function WinCheck(s: Snapshot): Snapshot
  {
    if s.count == |s.word| then s.(wins := s.wins + 1, state := Won) else s
  }

  /** No guess left: the game is lost and the whole word is shown. */
  function LossCheck(s: Snapshot): Snapshot
  {
    if s.left == 0 then s.(state := Lost, slots := Spelled(s.word)) else s
  }

  /** The key handler: a finished game is replaced by a new one, then the key is played. */
  function KeyStep(s: Snapshot, pick: nat, key: string): (Snapshot, bool)
    requires pick < |Words|
  {
    Round(if s.state.finished then NewGame(pick, s.wins) else s, key)
  }

  // ---------------------------------------------------------------------------
  // Invariants

  /**
   * Bookkeeping that holds in every state reachable from `initGame` by
   * `playRound`: one slot per letter, the count of correct characters is the
   * number of positions whose letter was guessed, and the slots show either
   * exactly the guessed letters or (after `showWord`) the whole word.
   */
  ghost predicate Consistent(s: Snapshot)
  {
    && |s.slots| == |s.word|
    && s.count == |Revealed(s.word, s.guessed)|
    && (s.slots == Masked(s.word, s.guessed) || s.slots == Spelled(s.word))
  }

  /** The game invariant kept by the key handler. */
  ghost predicate Inv(s: Snapshot)
  {
    && Consistent(s)
    && s.word in Words
    && s.left == AllowedGuesses - |Misses(s.word, s.guessed)|
    && 0 <= s.left
    && (s.state == InProgress || s.state == Won || s.state == Lost)
    && (s.state == InProgress ==> 0 < s.left && s.count < |s.word| && s.slots == Masked(s.word, s.guessed))
    && (s.state == Won ==> 0 < s.left && s.count == |s.word|)
    && (s.state == Lost ==> s.left == 0 && s.count < |s.word| && s.slots == Spelled(s.word))
  }

  // ---------------------------------------------------------------------------
  // Facts about positions and counts

  /** Every catalog word is a non-empty string of at most eight lower-case letters. */
  lemma CatalogWords()
    ensures forall w :: w in Words ==> 0 < |w| <= 8 && forall j :: 0 <= j < |w| ==> 'a' <= w[j] <= 'z'
  {
  }

  lemma PositionsStep(w: string, c: string, n: nat)
    requires n < |w|
    ensures PositionsUpTo(w, c, n + 1) == PositionsUpTo(w, c, n) + (if [w[n]] == c then {n} else {})
  {
  }

  lemma LettersStep(w: string, n: nat)
    requires n < |w|
    ensures LettersUpTo(w, n + 1) == LettersUpTo(w, n) + {[w[n]]}
  {
    assert [w[n]] in LettersUpTo(w, n + 1);
  }

  /**
   * m holds what `makeWordMap` has added to m0 after the indices below i:
   * every letter seen so far has an entry, extended by its positions so far.
   */
  ghost predicate MergedUpTo(m0: map<string, set<nat>>, m: map<string, set<nat>>, w: string, i: nat)
    requires i <= |w|
  {
    && (forall c :: c in m <==> c in m0 || c in LettersUpTo(w, i))
    && (forall c :: c in m ==> m[c] == Lookup(m0, c) + PositionsUpTo(w, c, i))
  }

  /** Adding index i to the entry of its letter extends the merge by one index. */
  lemma MergeIndex(m0: map<string, set<nat>>, m: map<string, set<nat>>, w: string, i: nat)
    requires i < |w| && MergedUpTo(m0, m, w, i)
    ensures MergedUpTo(m0, m[[w[i]] := Lookup(m, [w[i]]) + {i}], w, i + 1)
  {
    var ch := [w[i]];
    var m' := m[ch := Lookup(m, ch) + {i}];
    assert forall c :: c in m' <==> c in m0 || c in LettersUpTo(w, i + 1) by {
      LettersStep(w, i);
    }
    forall c | c in m' ensures m'[c] == Lookup(m0, c) + PositionsUpTo(w, c, i + 1) {
      PositionsStep(w, c, i);
      if c == ch {
        assert Lookup(m, ch) == Lookup(m0, c) + PositionsUpTo(w, c, i);
      }
    }
  }

  /** Indexing a word into an empty map yields IndexMap. */
  lemma FreshIndexMap(m: map<string, set<nat>>, w: string)
    requires forall c :: c in m <==> c in Letters(w)
    requires forall c :: c in m ==> m[c] == Positions(w, c)
    ensures m == IndexMap(w)
  {
    assert m.Keys == IndexMap(w).Keys;
  }

  /** A key is a letter of w exactly when it has at least one position in w. */
  lemma LetterIffPositions(w: string, c: string)
    ensures c in Letters(w) <==> Positions(w, c) != {}
  {
    if c in LettersUpTo(w, |w|) {
      var j: nat :| j < |w| && [w[j]] == c;
      assert j in PositionsUpTo(w, c, |w|);
    }
    if PositionsUpTo(w, c, |w|) != {} {
      var j :| j in PositionsUpTo(w, c, |w|);
      assert [w[j]] in LettersUpTo(w, |w|);
    }
  }

  /**
   * The map `makeWordMap` builds relates index i to letter c exactly when the
   * word has c at i; hence its index sets are pairwise disjoint and together
   * cover every index of the word.
   */
  lemma IndexMapPartitions(w: string)
    ensures forall c, j: nat :: c in IndexMap(w) && j in IndexMap(w)[c] <==> j < |w| && [w[j]] == c
    ensures forall c, d :: c in IndexMap(w) && d in IndexMap(w) && c != d ==> IndexMap(w)[c] !! IndexMap(w)[d]
    ensures forall j: nat :: j < |w| ==> [w[j]] in IndexMap(w) && j in IndexMap(w)[[w[j]]]
  {
    forall j: nat | j < |w|
      ensures [w[j]] in IndexMap(w) && j in IndexMap(w)[[w[j]]]
    {
      assert [w[j]] in Letters(w);
    }
  }

  /** The indices of a word of length n are n in number. */
  lemma {:induction false} RangeSize(n: nat)
    ensures |Range(n)| == n
    ensures forall j: nat :: j in Range(n) <==> j < n
  {
    if n > 0 {
      RangeSize(n - 1);
    }
  }

  /** A subset is no larger, and a subset of the same size is the whole set. */
  lemma SubsetSize<T>(a: set<T>, b: set<T>)
    requires a <= b
    ensures |a| <= |b|
    ensures |a| == |b| ==> a == b
  {
    assert b == a + (b - a);
    assert a * (b - a) == {};
    if |a| == |b| {
      assert |b - a| == 0;
      assert b - a == {};
    }
  }

  /**
   * The number of revealed positions never exceeds the word length, and
   * reaches it exactly when every letter of the word has been guessed.
   */
  lemma RevealedBounds(w: string, guessed: set<string>)
    ensures |Revealed(w, guessed)| <= |w|
    ensures |Revealed(w, guessed)| == |w| <==> forall j :: 0 <= j < |w| ==> [w[j]] in guessed
  {
    RangeSize(|w|);
    SubsetSize(Revealed(w, guessed), Range(|w|));
    if forall j :: 0 <= j < |w| ==> [w[j]] in guessed {
      assert Revealed(w, guessed) == Range(|w|);
    }
    if |Revealed(w, guessed)| == |w| {
      assert Revealed(w, guessed) == Range(|w|);
      forall j | 0 <= j < |w| ensures [w[j]] in guessed {
        assert j in Range(|w|);
      }
    }
  }

  /** Guessing a new key reveals exactly its positions, on top of those already revealed. */
  lemma RevealedAdd(w: string, guessed: set<string>, key: string)
    requires key !in guessed
    ensures Revealed(w, guessed + {key}) == Revealed(w, guessed) + Positions(w, key)
    ensures |Revealed(w, guessed + {key})| == |Revealed(w, guessed)| + |Positions(w, key)|
  {
    assert Revealed(w, guessed) * Positions(w, key) == {};
  }

  /** When every letter is guessed, the masked word is the whole word. */
  lemma MaskedComplete(w: string, guessed: set<string>)
    requires forall j :: 0 <= j < |w| ==> [w[j]] in guessed
    ensures Masked(w, guessed) == Spelled(w)
  {
  }

  /** Revealing the positions of a new key keeps the slots in step with the guesses. */
  lemma PatchSlots(s: Snapshot, key: string)
    requires |s.slots| == |s.word| && key !in s.guessed
    ensures s.slots == Masked(s.word, s.guessed) ==>
      Patch(s.slots, Positions(s.word, key), key) == Masked(s.word, s.guessed + {key})
    ensures s.slots == Spelled(s.word) ==> Patch(s.slots, Positions(s.word, key), key) == Spelled(s.word)
    ensures Positions(s.word, key) == {} && s.slots == Masked(s.word, s.guessed) ==>
      s.slots == Masked(s.word, s.guessed + {key})
  {
    var w, hits := s.word, Positions(s.word, key);
    if s.slots == Masked(w, s.guessed) {
      forall j | 0 <= j < |w|
        ensures Patch(s.slots, hits, key)[j] == Masked(w, s.guessed + {key})[j]
      {
        if [w[j]] == key {
          assert j in hits;
        }
      }
      if hits == {} {
        forall j | 0 <= j < |w| ensures s.slots[j] == Masked(w, s.guessed + {key})[j] {
          assert j !in hits;
        }
      }
    }
  }

  /** A new key adds a miss exactly when it is not a letter of the word. */
  lemma MissesAdd(w: string, guessed: set<string>, key: string)
    requires key !in guessed
    ensures key in Letters(w) ==> Misses(w, guessed + {key}) == Misses(w, guessed)
    ensures key !in Letters(w) ==> |Misses(w, guessed + {key})| == |Misses(w, guessed)| + 1
  {
    if key !in Letters(w) {
      assert Misses(w, guessed + {key}) == Misses(w, guessed) + {key};
    }
  }

  // ---------------------------------------------------------------------------
  // What the transitions promise

  /** `initGame` starts an in-progress game: all placeholders, no guesses, five guesses left. */
  lemma NewGameInv(pick: nat, wins: nat)
    requires pick < |Words|
    ensures var s := NewGame(pick, wins);
      && Inv(s) && s.word == Words[pick] && s.wins == wins
      && s.guessed == {} && s.count == 0 && s.left == AllowedGuesses && s.state == InProgress
      && |s.slots| == |s.word| && forall j :: 0 <= j < |s.slots| ==> s.slots[j] == Placeholder
  {
    var s := NewGame(pick, wins);
    assert Revealed(s.word, {}) == {};
    assert Misses(s.word, {}) == {};
    assert Masked(s.word, {}) == s.slots;
    assert 0 < |s.word| by { CatalogWords(); }
  }

  /** Guessing a key already guessed changes nothing and shows the notice. */
  lemma RepeatGuessIdempotent(s: Snapshot, key: string)
    requires key in s.guessed
    ensures Round(s, key) == (s, true)
  {
  }

  /**
   * A new key that occurs k > 0 times reveals all k positions, leaves the other
   * slots alone, adds k to the count, costs no guess and is recorded.
   */
  lemma HitReveals(s: Snapshot, key: string)
    requires |s.slots| == |s.word| && s.left != 0
    requires key !in s.guessed && Positions(s.word, key) != {}
    ensures var (r, notice) := Round(s, key);
      && !notice
      && (forall j :: 0 <= j < |s.word| && [s.word[j]] == key ==> r.slots[j] == key)
      && (forall j :: 0 <= j < |s.word| && [s.word[j]] != key ==> r.slots[j] == s.slots[j])
      && r.count == s.count + |Positions(s.word, key)|
      && r.left == s.left
      && r.guessed == s.guessed + {key}
  {
    var r := Round(s, key).0;
    forall j | 0 <= j < |s.word| && [s.word[j]] == key ensures r.slots[j] == key {
      assert j in Positions(s.word, key);
    }
  }

  /**
   * A new key that is not in the word costs exactly one guess, leaves the
   * count alone and is recorded; the slots stay as they were unless that was
   * the last guess, in which case the word is shown.
   */
  lemma MissCosts(s: Snapshot, key: string)
    requires key !in s.guessed && key !in Letters(s.word)
    ensures var (r, notice) := Round(s, key);
      && !notice
      && r.left == s.left - 1
      && r.count == s.count
      && r.guessed == s.guessed + {key}
      && r.slots == (if r.left == 0 then Spelled(s.word) else s.slots)
  {
    LetterIffPositions(s.word, key);
  }

  /**
   * From an in-progress game, a new letter of the word keeps every guess and
   * never loses the game; wins goes up by one exactly when it wins.
   */
  lemma HitNeverLoses(s: Snapshot, key: string)
    requires Inv(s) && s.state == InProgress
    requires key !in s.guessed && key in Letters(s.word)
    ensures var r := Round(s, key).0;
      && Inv(r) && r.word == s.word && r.guessed == s.guessed + {key} && r.left == s.left
      && r.state != Lost && r.wins == (if r.state == Won then s.wins + 1 else s.wins)
  {
    var r := Round(s, key).0;
    LetterIffPositions(s.word, key);
    assert r.left == s.left && r.guessed == s.guessed + {key} && r.word == s.word;
    RoundWins(s, key);
    assert Inv(r) by { RoundKeepsInv(s, key); }
  }

  /** Every round keeps the bookkeeping, in whatever state it is played. */
  lemma RoundConsistent(s: Snapshot, key: string)
    requires Consistent(s)
    ensures Consistent(Round(s, key).0)
    ensures Round(s, key).0.count <= |s.word|
  {
    var r := Round(s, key).0;
    if key !in s.guessed {
      RevealedAdd(s.word, s.guessed, key);
      PatchSlots(s, key);
      if s.slots == Spelled(s.word) && Positions(s.word, key) == {} {
        assert r.slots == Spelled(s.word);
      }
    }
    RevealedBounds(s.word, r.guessed);
  }

  /**
   * Played on an in-progress game, a round keeps the game invariant: in
   * particular the count stays within the word length and guessesLeft never
   * drops below zero.
   */
  lemma RoundKeepsInv(s: Snapshot, key: string)
    requires Inv(s) && s.state == InProgress
    ensures Inv(Round(s, key).0)
  {
    RoundConsistent(s, key);
    if key !in s.guessed {
      var r := Round(s, key).0;
      var hits := Positions(s.word, key);
      LetterIffPositions(s.word, key);
      MissesAdd(s.word, s.guessed, key);
      PatchSlots(s, key);
      RevealedBounds(s.word, r.guessed);
      if hits != {} {
        assert r.left == s.left;
      } else {
        assert r.count == s.count;
      }
    }
  }

  /**
   * From an in-progress game, a new key wins exactly when it completes the
   * word (then wins goes up by one and the whole word shows), and loses
   * exactly when it uses up the last guess without winning (then the whole
   * word shows too); otherwise the game stays in progress with wins unchanged.
   */
  lemma RoundOutcome(s: Snapshot, key: string)
    requires Inv(s) && s.state == InProgress
    ensures var r := Round(s, key).0;
      && (r.state == Won <==> forall j :: 0 <= j < |s.word| ==> [s.word[j]] in r.guessed)
      && (r.state == Won ==> r.wins == s.wins + 1 && r.slots == Spelled(s.word))
      && (r.state != Won ==> r.wins == s.wins)
      && (r.state == Lost <==> r.left == 0)
      && (r.state == Lost ==> r.slots == Spelled(s.word))
      && (r.state == InProgress || r.state == Won || r.state == Lost)
  {
    var r := Round(s, key).0;
    assert r.word == s.word;
    RoundWins(s, key);
    assert Inv(r) by { RoundKeepsInv(s, key); }
    WonIffComplete(r);
    if r.state == Won {
      MaskedComplete(r.word, r.guessed);
      assert r.slots == Spelled(s.word);
    }
    assert r.state == Lost <==> r.left == 0;
  }

  /** Under the game invariant, a game is won exactly when every letter of its word has been guessed. */
  lemma WonIffComplete(s: Snapshot)
    requires Inv(s)
    ensures s.state == Won <==> forall j :: 0 <= j < |s.word| ==> [s.word[j]] in s.guessed
  {
    RevealedBounds(s.word, s.guessed);
  }

  /** From an in-progress game, wins goes up by one exactly when the round wins. */
  lemma RoundWins(s: Snapshot, key: string)
    requires s.state == InProgress && 0 < s.left && s.count < |s.word|
    ensures var r := Round(s, key).0;
      r.wins == (if r.state == Won then s.wins + 1 else s.wins)
  {
    if key !in s.guessed {
      var g := Guess(s, key);
      if g.count == |g.word| {
        assert Positions(s.word, key) != {};
        assert g.left == s.left;
      }
    }
  }

  /**
   * `playRound` itself has no guard for a finished game: on a won game every
   * letter is guessed, so a new key is a miss, the win check fires again and
   * counts another win, and the miss that spends the last guess turns the
   * game into a loss. The key handler never lets this happen (KeyStep).
   */
  lemma WonGameRescores(s: Snapshot, key: string)
    requires Inv(s) && s.state == Won && key !in s.guessed
    ensures var r := Round(s, key).0;
      && r.wins == s.wins + 1 && r.left == s.left - 1 && r.count == s.count
      && r.state == (if s.left == 1 then Lost else Won)
  {
    WonIffComplete(s);
    forall c | c in LettersUpTo(s.word, |s.word|) ensures c in s.guessed {
      var j: nat :| j < |s.word| && [s.word[j]] == c;
    }
    MissCosts(s, key);
  }

  /**
   * The key handler keeps the game invariant, so guessesLeft never goes below
   * zero, and wins goes up by exactly one on a key that wins a game and is
   * otherwise unchanged.
   */
  lemma KeyStepKeepsInv(s: Snapshot, pick: nat, key: string)
    requires Inv(s) && pick < |Words|
    ensures var r := KeyStep(s, pick, key).0;
      && Inv(r) && 0 <= r.left
      && r.wins == (if r.state == Won then s.wins + 1 else s.wins)
  {
    var s' := if s.state.finished then NewGame(pick, s.wins) else s;
    if s.state.finished {
      NewGameInv(pick, s.wins);
    }
    RoundKeepsInv(s', key);
    RoundOutcome(s', key);
  }

  // ---------------------------------------------------------------------------
  // Whole games

  /** The state after playing keys one after another, without the handler's reset. */
  function Play(s: Snapshot, keys: seq<string>): Snapshot
    decreases |keys|
  {
    if keys == [] then s else Round(Play(s, keys[..|keys| - 1]), keys[|keys| - 1]).0
  }

  /**
   * Calling `playRound` with each of the first k letters of the word in turn
   * on a new game, with no handler reset in between, guesses exactly those
   * letters without losing a guess, and the game is won exactly when they
   * include every letter of the word.
   */
  lemma {:induction false} SpellingPrefix(s0: Snapshot, k: nat)
    requires Inv(s0) && s0.state == InProgress && s0.guessed == {} && k <= |s0.word|
    ensures SpelledUpTo(s0, Play(s0, Spelled(s0.word)[..k]), k)
  {
    var w := s0.word;
    if k == 0 {
      assert Spelled(w)[..0] == [];
    } else {
      PlayLast(s0, Spelled(w), k);
      var q := Play(s0, Spelled(w)[..k - 1]);
      SpellingPrefix(s0, k - 1);
      assert SpelledUpTo(s0, q, k - 1);
      SpellingStep(s0, q, k);
    }
  }

  /** Playing the first k keys is playing the first k - 1 and then key k - 1. */
  lemma PlayLast(s: Snapshot, keys: seq<string>, k: nat)
    requires 0 < k <= |keys|
    ensures Play(s, keys[..k]) == Round(Play(s, keys[..k - 1]), keys[k - 1]).0
  {
    assert keys[..k][..k - 1] == keys[..k - 1];
  }

  /** The state p after playing the first k letters of the word on s0, as SpellingPrefix describes it. */
  ghost predicate SpelledUpTo(s0: Snapshot, p: Snapshot, k: nat)
    requires k <= |s0.word|
  {
    && Inv(p) && p.word == s0.word && p.left == s0.left
    && (forall j :: 0 <= j < k ==> [s0.word[j]] in p.guessed)
    && p.guessed <= Letters(s0.word)
    && p.state != Lost && p.wins == (if p.state == Won then s0.wins + 1 else s0.wins)
  }

  /** One more letter of the word: the step of SpellingPrefix. */
  lemma SpellingStep(s0: Snapshot, q: Snapshot, k: nat)
    requires 0 < k <= |s0.word| && SpelledUpTo(s0, q, k - 1)
    ensures SpelledUpTo(s0, Round(q, [s0.word[k - 1]]).0, k)
  {
    if [s0.word[k - 1]] !in q.guessed {
      SpellingNewLetter(s0, q, k);
    } else {
      RepeatGuessIdempotent(q, [s0.word[k - 1]]);
      SpelledRepeat(s0, q, k);
    }
  }

  /** A letter already played leaves the state as it is, and it already counts as spelled. */
  lemma SpelledRepeat(s0: Snapshot, q: Snapshot, k: nat)
    requires 0 < k <= |s0.word| && SpelledUpTo(s0, q, k - 1) && [s0.word[k - 1]] in q.guessed
    ensures SpelledUpTo(s0, q, k)
  {
    assert forall j :: 0 <= j < k ==> [s0.word[j]] in q.guessed by {
      forall j | 0 <= j < k ensures [s0.word[j]] in q.guessed {
        if j < k - 1 {
          assert SpelledUpTo(s0, q, k - 1);
        }
      }
    }
  }

  /** The step of SpellingPrefix when the letter had not been played before. */
  lemma SpellingNewLetter(s0: Snapshot, q: Snapshot, k: nat)
    requires 0 < k <= |s0.word| && SpelledUpTo(s0, q, k - 1) && [s0.word[k - 1]] !in q.guessed
    ensures SpelledUpTo(s0, Round(q, [s0.word[k - 1]]).0, k)
  {
    var key := [s0.word[k - 1]];
    assert key in Letters(s0.word);
    assert q.state == InProgress by {
      RevealedBounds(s0.word, q.guessed);
    }
    HitNeverLoses(q, key);
    SpelledAfterHit(s0, q, Round(q, key).0, k);
  }

  /** A hit that records letter k - 1 of the word, keeps the guesses and never loses extends the spelling by one letter. */
  lemma SpelledAfterHit(s0: Snapshot, q: Snapshot, r: Snapshot, k: nat)
    requires 0 < k <= |s0.word| && SpelledUpTo(s0, q, k - 1)
    requires Inv(r) && r.word == q.word && r.guessed == q.guessed + {[s0.word[k - 1]]} && r.left == q.left
    requires r.state != Lost && r.wins == (if r.state == Won then q.wins + 1 else q.wins)
    requires q.state == InProgress
    ensures SpelledUpTo(s0, r, k)
  {
    var key := [s0.word[k - 1]];
    assert key in Letters(s0.word);
    assert r.guessed <= Letters(s0.word);
    assert forall j :: 0 <= j < k ==> [s0.word[j]] in r.guessed by {
      forall j | 0 <= j < k ensures [s0.word[j]] in r.guessed {
        if j < k - 1 {
          assert [s0.word[j]] in q.guessed;
        }
      }
    }
    assert q.wins == s0.wins;
  }

  /**
   * Calling `playRound` with the letters of the word in turn on a new game,
   * with no handler reset in between, wins it with every guess left: wins
   * goes up by one and the whole word shows. A letter that occurs again is a
   * repeat to `playRound` and changes nothing, even after the win. (Through
   * the key handler a repeat after the win would start a new game instead.)
   */
  lemma SpellingWins(pick: nat, wins: nat)
    requires pick < |Words|
    ensures var w := Words[pick];
      var p := Play(NewGame(pick, wins), Spelled(w));
      p.state == Won && p.wins == wins + 1 && p.left == AllowedGuesses && p.slots == Spelled(w)
  {
    var w := Words[pick];
    NewGameInv(pick, wins);
    SpellingPrefix(NewGame(pick, wins), |w|);
    assert Spelled(w)[..|w|] == Spelled(w);
    var p := Play(NewGame(pick, wins), Spelled(w));
    RevealedBounds(w, p.guessed);
    MaskedComplete(w, p.guessed);
  }

  /**
   * The state after the first k of five distinct misses on word w: k guesses
   * spent, nothing revealed, wins unchanged; lost with the word shown at the fifth.
   */
  ghost predicate MissedUpTo(w: string, wins: nat, keys: seq<string>, p: Snapshot, k: nat)
    requires k <= |keys|
  {
    && p.word == w && p.guessed == (set i | 0 <= i < k :: keys[i])
    && p.left == AllowedGuesses - k && p.count == 0 && p.wins == wins
    && p.state == (if k == AllowedGuesses then Lost else InProgress)
    && p.slots == (if k == AllowedGuesses then Spelled(w) else Placeholders(|w|))
  }

  /**
   * Calling `playRound` with k of five distinct keys in turn, none of them a
   * letter of the word, on a new game costs k guesses and reveals nothing;
   * the fifth loses the game and shows the whole word, with wins unchanged.
   */
  lemma {:induction false} MissingPrefix(pick: nat, wins: nat, keys: seq<string>, k: nat)
    requires pick < |Words| && |keys| == AllowedGuesses && k <= |keys|
    requires forall i, j :: 0 <= i < j < |keys| ==> keys[i] != keys[j]
    requires forall i :: 0 <= i < |keys| ==> keys[i] !in Letters(Words[pick])
    ensures MissedUpTo(Words[pick], wins, keys, Play(NewGame(pick, wins), keys[..k]), k)
  {
    var s0 := NewGame(pick, wins);
    if k == 0 {
      assert keys[..0] == [];
    } else {
      MissingPrefix(pick, wins, keys, k - 1);
      PlayLast(s0, keys, k);
      assert 0 < |Words[pick]| by { CatalogWords(); }
      MissingNext(Words[pick], wins, keys, Play(s0, keys[..k - 1]), k);
    }
  }

  lemma MissingNext(w: string, wins: nat, keys: seq<string>, q: Snapshot, k: nat)
    requires 0 < k <= |keys| == AllowedGuesses && 0 < |w|
    requires forall i, j :: 0 <= i < j < |keys| ==> keys[i] != keys[j]
    requires forall i :: 0 <= i < |keys| ==> keys[i] !in Letters(w)
    requires MissedUpTo(w, wins, keys, q, k - 1)
    ensures MissedUpTo(w, wins, keys, Round(q, keys[k - 1]).0, k)
  {
    var key := keys[k - 1];
    assert key !in q.guessed;
    assert (set i | 0 <= i < k :: keys[i]) == q.guessed + {key};
    MissStep(q, key, k - 1);
  }

  /** The n+1-th miss into a game with nothing revealed. */
  lemma MissStep(q: Snapshot, key: string, n: nat)
    requires n < AllowedGuesses && q.left == AllowedGuesses - n && 0 < |q.word|
    requires q.count == 0 && q.state == InProgress && q.slots == Placeholders(|q.word|)
    requires key !in q.guessed && key !in Letters(q.word)
    ensures var p := Round(q, key).0;
      && p.word == q.word && p.guessed == q.guessed + {key}
      && p.left == AllowedGuesses - (n + 1) && p.count == 0 && p.wins == q.wins
      && p.state == (if n + 1 == AllowedGuesses then Lost else InProgress)
      && p.slots == (if n + 1 == AllowedGuesses then Spelled(q.word) else Placeholders(|q.word|))
  {
    MissCosts(q, key);
  }

  /** Five distinct misses played by `playRound` lose a new game and show the whole word; wins is unchanged. */
  lemma MissesLose(pick: nat, wins: nat, keys: seq<string>)
    requires pick < |Words| && |keys| == AllowedGuesses
    requires forall i, j :: 0 <= i < j < |keys| ==> keys[i] != keys[j]
    requires forall i :: 0 <= i < |keys| ==> keys[i] !in Letters(Words[pick])
    ensures var p := Play(NewGame(pick, wins), keys);
      p.state == Lost && p.left == 0 && p.count == 0 && p.wins == wins && p.slots == Spelled(Words[pick])
  {
    MissingPrefix(pick, wins, keys, |keys|);
    assert keys[..|keys|] == keys;
    assert MissedUpTo(Words[pick], wins, keys, Play(NewGame(pick, wins), keys), |keys|);
  }

  /** On "tiger", `playRound` with t, i, g, e, r in turn wins with five guesses left and shows the word. */
  lemma TigerWin(wins: nat)
    ensures var p := Play(NewGame(2, wins), ["t", "i", "g", "e", "r"]);
      p.state == Won && p.wins == wins + 1 && p.left == 5 && p.slots == ["t", "i", "g", "e", "r"]
  {
    SpellingWins(2, wins);
    assert Spelled("tiger") == ["t", "i", "g", "e", "r"];
  }

  /** On "tiger", `playRound` with x, y, z, q, w in turn loses with no letter counted, and the word is shown. */
  lemma TigerLoss(wins: nat)
    ensures var p := Play(NewGame(2, wins), ["x", "y", "z", "q", "w"]);
      p.state == Lost && p.left == 0 && p.count == 0 && p.wins == wins && p.slots == ["t", "i", "g", "e", "r"]
  {
    var keys := ["x", "y", "z", "q", "w"];
    forall i | 0 <= i < |keys| ensures keys[i] !in Letters("tiger") {
      assert forall j :: 0 <= j < 5 ==> ["tiger"[j]] != keys[i];
    }
    MissesLose(2, wins, keys);
    assert Spelled("tiger") == ["t", "i", "g", "e", "r"];
  }
}

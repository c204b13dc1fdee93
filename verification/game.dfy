/**
 * The raw-terminal game of src/game.rs: `Game::start` reads key events and
 * keeps a buffer of at most five characters and a growing list of guesses,
 * until a guess ends the game (a share is returned), Esc is pressed or the
 * input runs out (no share), or redrawing the guesses fails (an error).
 *
 * The pure part is `Step` (what one key does) and `Play` (what a sequence of
 * keys does); the class `Game` runs the same loop imperatively and is proved
 * to agree with `Play`. Terminal output is left out, but not the `diff` that
 * every redraw of the guesses performs, since its error ends `start`.
 */
module Game {
  import opened Wrappers
  import opened Ascii
  import opened Share

  /** The key events `start` tells apart; every other termion key is `Other`. */
  datatype Key = Esc | Char(c: char) | Backspace | Other

  /** The effect of one key on the loop's state (buffer and guesses). */
  datatype Transition<E> =
    | Next(word: string, guesses: seq<string>)    // the loop goes on
    | Exit                                          // Esc: `return Ok(None)`
    | End(guesses: seq<string>, score: char)        // the game is over; a share follows
    | Fail(guesses: seq<string>, error: E)          // redrawing the guesses failed: `return Err(error)`

  /** How a whole run of `start` ends. */
  datatype Outcome<E> =
    | Quit(guesses: seq<string>)                    // Esc, or the input ran out: no share
    | Scored(guesses: seq<string>, score: char)     // won with a digit score, or lost with 'X'
    | Failed(guesses: seq<string>, error: E)        // the error of `diff` while redrawing

  /** A guess is accepted when it is in either word list. */
  predicate InDictionary(word: string, accept: set<string>, final: set<string>)
  {
    word in accept || word in final
  }

  /** The guesses on screen after Enter on a full buffer: the word is recorded first if it is known. */
  function Recorded(accept: set<string>, final: set<string>, guesses: seq<string>, word: string): (g: seq<string>)
    ensures g == guesses || g == guesses + [word]
    ensures g != guesses <==> InDictionary(word, accept, final)
  {
    if InDictionary(word, accept, final) then guesses + [word] else guesses
  }

  /** A key that reaches the `_ => {}` arm. */
  predicate Ignored(word: string, key: Key)
  {
    key == Other || (key.Char? && !(IsAscii(key.c) && |word| < 5) && !(key.c == '\n' && |word| == 5))
  }

  /**
   * One key event of `Game::start` (the arms of its `match`, in order). The
   * character arm comes before the Enter arm, so while the buffer is short
   * every ASCII key, '\n' included, is buffered; '\n' submits only a full
   * buffer. A word in neither list stays in the buffer. Either way the
   * guesses are redrawn (`draw_valid`, also called by `draw_invalid`), which
   * runs `diff` on each of them and returns its first error.
   *
   * `|guesses| < 6` holds of every state the loop reaches; it also keeps
   * `char::from_digit(len, 10).unwrap()` from panicking.
   */
  function Step<M, E>(solution: string, accept: set<string>, final: set<string>,
                      diff: (string, string) -> Result<M, E>,
                      guesses: seq<string>, word: string, key: Key): (t: Transition<E>)
    requires |word| <= 5 && |guesses| < 6
    ensures t.Exit? <==> key == Esc
    ensures t.Next? ==> |t.word| <= 5 && |t.guesses| < 6
    // the guess list only ever grows by the buffered word
    ensures t.Next? ==> t.guesses == guesses || (t.guesses == guesses + [word] && t.word == [])
    ensures !t.Exit? ==> t.guesses == guesses || t.guesses == guesses + [word]
    // a guess is recorded exactly when Enter submits a full dictionary word
    ensures !t.Exit? && t.guesses != guesses ==> |word| == 5 && InDictionary(word, accept, final)
    ensures key == Char('\n') && |word| == 5 && InDictionary(word, accept, final) ==>
              !t.Exit? && t.guesses == guesses + [word]
    // submitting a full buffer redraws the guesses, and fails exactly when a `diff` of them fails
    ensures key == Char('\n') && |word| == 5 ==>
              var recorded := Recorded(accept, final, guesses, word);
              (t.Fail? <==> CollectDiffs(recorded, solution, diff).Err?) &&
              (t.Fail? ==> t.guesses == recorded && t.error == CollectDiffs(recorded, solution, diff).error)
    ensures t.Fail? ==> key == Char('\n') && |word| == 5
    ensures CollectDiffs(guesses, solution, diff).Ok? && (t.Next? || t.End?) ==>
              CollectDiffs(t.guesses, solution, diff).Ok?
    // the game ends exactly on a correct guess (score = number of guesses) or on the sixth guess ('X')
    ensures t.End? ==> (word == solution <==> t.score != 'X')
    ensures t.End? && word == solution ==> t.score == DigitChar(|t.guesses|) && '1' <= t.score <= '6'
    ensures t.End? && word != solution ==> t.score == 'X' && |t.guesses| == 6
    ensures t.Next? && t.guesses != guesses ==> word != solution
    // a character is buffered exactly when it is ASCII and the buffer is short, and it is lower-cased
    ensures key.Char? && IsAscii(key.c) && |word| < 5 ==> t == Next(word + [ToLower(key.c)], guesses)
    ensures t.Next? && |t.word| > |word| ==>
              key.Char? && IsAscii(key.c) && |word| < 5 && t.word == word + [ToLower(key.c)]
    // a full buffer that is in neither list is kept, and nothing is recorded
    ensures (key == Char('\n') && |word| == 5 && !InDictionary(word, accept, final) &&
             CollectDiffs(guesses, solution, diff).Ok?) ==> t == Next(word, guesses)
    // Backspace drops the last character, if any
    ensures key == Backspace ==>
              t.Next? && t.guesses == guesses && (word == [] ==> t.word == []) &&
              (word != [] ==> t.word + [word[|word| - 1]] == word)
    // every other key changes nothing
    ensures Ignored(word, key) ==> t == Next(word, guesses)
    // the buffer never holds an upper-case letter
    ensures t.Next? && NoUpper(word) ==> NoUpper(t.word)
  {
    match key
    case Esc => Exit
    case Char(c) =>
      if IsAscii(c) && |word| < 5 then Next(word + [ToLower(c)], guesses)
      else if c == '\n' && |word| == 5 then
        var g := Recorded(accept, final, guesses, word);
        match CollectDiffs(g, solution, diff)
        case Err(e) => Fail(g, e)
        case Ok(_) =>
          if !InDictionary(word, accept, final) then Next(word, guesses)
          else if word == solution then End(g, DigitChar(|g|))
          else if |g| >= 6 then End(g, 'X')
          else Next([], g)
      else Next(word, guesses)
    case Backspace => Next(if word == [] then [] else word[..|word| - 1], guesses)
    case Other => Next(word, guesses)
  }

  /** The loop of `Game::start` over the key events `keys`, from buffer `word`. */
  function Play<M, E>(solution: string, accept: set<string>, final: set<string>,
                      diff: (string, string) -> Result<M, E>,
                      guesses: seq<string>, word: string, keys: seq<Key>): (o: Outcome<E>)
    requires |word| <= 5 && |guesses| < 6
    decreases |keys|
  {
    if keys == [] then Quit(guesses)
    else
      match Step(solution, accept, final, diff, guesses, word, keys[0])
      case Exit => Quit(guesses)
      case End(g, score) => Scored(g, score)
      case Fail(g, e) => Failed(g, e)
      case Next(w, g) => Play(solution, accept, final, diff, g, w, keys[1..])
  }

  /** What `Play` promises about a run that starts from a reachable state. */
  ghost predicate PlayEnds<M, E>(solution: string, accept: set<string>, final: set<string>,
                                 diff: (string, string) -> Result<M, E>,
                                 guesses: seq<string>, o: Outcome<E>)
  {
    var g := o.guesses;
    // the earlier guesses are kept, and at most six are ever made
    && |guesses| <= |g| <= 6
    && g[..|guesses|] == guesses
    // every new guess is a full dictionary word
    && (forall i :: |guesses| <= i < |g| ==> |g[i]| == 5 && InDictionary(g[i], accept, final))
    // a run without a share has not reached the end
    && (o.Quit? ==> |g| < 6 && solution !in g)
    // only a newly recorded guess can make the redraw fail, with the first error of `diff`
    && (o.Failed? ==> |g| > |guesses| && CollectDiffs(g, solution, diff) == Err(o.error))
    // a share comes on the first correct guess, with its number as score, or after six wrong ones with 'X'
    && (o.Scored? ==>
          && |g| > |guesses|
          && CollectDiffs(g, solution, diff).Ok?
          && solution !in g[..|g| - 1]
          && (g[|g| - 1] == solution <==> o.score != 'X')
          && (o.score != 'X' ==> o.score == DigitChar(|g|) && '1' <= o.score <= '6')
          && (o.score == 'X' ==> |g| == 6))
  }

  /** What one step from a reachable state keeps: the facts `PlayOutcome` needs. */
  ghost predicate StepKeeps<M, E>(solution: string, accept: set<string>, final: set<string>,
                                  diff: (string, string) -> Result<M, E>,
                                  guesses: seq<string>, word: string, t: Transition<E>)
  {
    match t
    case Exit => true
    case Next(w, g) =>
      && |w| <= 5 && |g| < 6 && solution !in g && CollectDiffs(g, solution, diff).Ok?
      && (g == guesses || (g == guesses + [word] && |word| == 5 && InDictionary(word, accept, final)))
    case End(g, score) =>
      && g == guesses + [word] && |g| <= 6 && |word| == 5 && InDictionary(word, accept, final)
      && CollectDiffs(g, solution, diff).Ok?
      && (word == solution <==> score != 'X')
      && (score != 'X' ==> score == DigitChar(|g|) && '1' <= score <= '6')
      && (score == 'X' ==> |g| == 6)
    case Fail(g, e) =>
      && g == guesses + [word] && |word| == 5 && InDictionary(word, accept, final)
      && CollectDiffs(g, solution, diff) == Err(e)
  }

  lemma StepKept<M, E>(solution: string, accept: set<string>, final: set<string>,
                       diff: (string, string) -> Result<M, E>,
                       guesses: seq<string>, word: string, key: Key)
    requires |word| <= 5 && |guesses| < 6 && solution !in guesses
    requires CollectDiffs(guesses, solution, diff).Ok?
    ensures StepKeeps(solution, accept, final, diff, guesses, word,
                      Step(solution, accept, final, diff, guesses, word, key))
  {
  }

  /**
   * From a reachable state (no correct guess yet, and the recorded guesses
   * redraw without error) every run ends as `PlayEnds` says.
   */
  lemma {:induction false} PlayOutcome<M, E>(solution: string, accept: set<string>, final: set<string>,
                                             diff: (string, string) -> Result<M, E>,
                                             guesses: seq<string>, word: string, keys: seq<Key>)
    requires |word| <= 5 && |guesses| < 6 && solution !in guesses
    requires CollectDiffs(guesses, solution, diff).Ok?
    ensures PlayEnds(solution, accept, final, diff, guesses, Play(solution, accept, final, diff, guesses, word, keys))
    decreases |keys|
  {
    if keys != [] {
      var t := Step(solution, accept, final, diff, guesses, word, keys[0]);
      StepKept(solution, accept, final, diff, guesses, word, keys[0]);
      var o := Play(solution, accept, final, diff, guesses, word, keys);
      if t.Next? {
        PlayOutcome(solution, accept, final, diff, t.guesses, t.word, keys[1..]);
      }
      PlayEndsAfterStep(solution, accept, final, diff, guesses, word, t, o);
    }
  }

  /** One step of `Play` keeps `PlayEnds`, given what the step keeps. */
  lemma PlayEndsAfterStep<M, E>(solution: string, accept: set<string>, final: set<string>,
                                diff: (string, string) -> Result<M, E>,
                                guesses: seq<string>, word: string, t: Transition<E>, o: Outcome<E>)
    requires |guesses| < 6 && solution !in guesses
    requires StepKeeps(solution, accept, final, diff, guesses, word, t)
    requires t.Exit? ==> o == Quit(guesses)
    requires t.End? ==> o == Scored(t.guesses, t.score)
    requires t.Fail? ==> o == Failed(t.guesses, t.error)
    requires t.Next? ==> PlayEnds(solution, accept, final, diff, t.guesses, o)
    ensures PlayEnds(solution, accept, final, diff, guesses, o)
  {
    if t.Next? {
      PlayEndsFromEarlier(solution, accept, final, diff, guesses, t.guesses, o);
    } else if t.End? {
      assert t.guesses[..|t.guesses| - 1] == guesses;
    }
  }

  /** What `PlayEnds` promises from `g` it also promises from `guesses`, when `g` adds at most one word. */
  lemma PlayEndsFromEarlier<M, E>(solution: string, accept: set<string>, final: set<string>,
                                  diff: (string, string) -> Result<M, E>,
                                  guesses: seq<string>, g: seq<string>, o: Outcome<E>)
    requires g == guesses ||
             (|g| == |guesses| + 1 && g[..|guesses|] == guesses &&
              |g[|guesses|]| == 5 && InDictionary(g[|guesses|], accept, final))
    requires PlayEnds(solution, accept, final, diff, g, o)
    ensures PlayEnds(solution, accept, final, diff, guesses, o)
  {
    var og := o.guesses;
    assert og[..|g|][..|guesses|] == og[..|guesses|];
    if o.Scored? {
      assert og[..|og| - 1][..|g|] == g;
    }
  }

  /** The keys that type `s`, one character each. */
  function Typed(s: string): (keys: seq<Key>)
    ensures |keys| == |s| && forall i :: 0 <= i < |s| ==> keys[i] == Char(s[i])
  {
    seq(|s|, i requires 0 <= i < |s| => Char(s[i]))
  }

  /** Typing one lower-case letter into a short buffer appends it. */
  lemma TypingOne<M, E>(solution: string, accept: set<string>, final: set<string>,
                        diff: (string, string) -> Result<M, E>,
                        guesses: seq<string>, word: string, c: char, rest: seq<Key>)
    requires |word| < 5 && |guesses| < 6 && IsLower(c)
    ensures Play(solution, accept, final, diff, guesses, word, [Char(c)] + rest)
         == Play(solution, accept, final, diff, guesses, word + [c], rest)
  {
    var keys := [Char(c)] + rest;
    assert keys[1..] == rest;
    assert Step(solution, accept, final, diff, guesses, word, keys[0]) == Next(word + [c], guesses);
  }

  /** Typing lower-case ASCII letters into a buffer with room for them appends them. */
  lemma {:induction false} TypingFillsBuffer<M, E>(solution: string, accept: set<string>, final: set<string>,
                                                   diff: (string, string) -> Result<M, E>,
                                                   guesses: seq<string>, word: string, s: string, rest: seq<Key>)
    requires |word| + |s| <= 5 && |guesses| < 6 && AllLower(s)
    ensures Play(solution, accept, final, diff, guesses, word, Typed(s) + rest)
         == Play(solution, accept, final, diff, guesses, word + s, rest)
    decreases |s|
  {
    if s == [] {
      assert Typed(s) + rest == rest;
      assert word + s == word;
    } else {
      var c := s[0];
      assert Typed(s) + rest == [Char(c)] + (Typed(s[1..]) + rest);
      assert AllLower(s[1..]);
      TypingOne(solution, accept, final, diff, guesses, word, c, Typed(s[1..]) + rest);
      TypingFillsBuffer(solution, accept, final, diff, guesses, word + [s[0]], s[1..], rest);
      assert word + [s[0]] + s[1..] == word + s;
    }
  }

  /**
   * Typing a lower-case solution that is in a word list and pressing Enter
   * records it and wins, scored with the number of guesses, unless redrawing
   * the guesses fails.
   */
  lemma TypingTheSolutionWins<M, E>(solution: string, accept: set<string>, final: set<string>,
                                    diff: (string, string) -> Result<M, E>,
                                    guesses: seq<string>, rest: seq<Key>)
    requires |solution| == 5 && AllLower(solution) && InDictionary(solution, accept, final)
    requires |guesses| < 6
    ensures var g := guesses + [solution];
      Play(solution, accept, final, diff, guesses, "", Typed(solution) + [Char('\n')] + rest)
      == match CollectDiffs(g, solution, diff)
         case Ok(_) => Scored(g, DigitChar(|g|))
         case Err(e) => Failed(g, e)
  {
    var enter := [Char('\n')] + rest;
    assert Typed(solution) + [Char('\n')] + rest == Typed(solution) + enter;
    TypingFillsBuffer(solution, accept, final, diff, guesses, "", solution, enter);
    assert "" + solution == solution;
    EnterOnSolution(solution, accept, final, diff, guesses, rest);
  }

  /** Enter on a buffer holding the solution, which is in a word list, ends the game. */
  lemma EnterOnSolution<M, E>(solution: string, accept: set<string>, final: set<string>,
                              diff: (string, string) -> Result<M, E>,
                              guesses: seq<string>, rest: seq<Key>)
    requires |solution| == 5 && InDictionary(solution, accept, final) && |guesses| < 6
    ensures var g := guesses + [solution];
      Play(solution, accept, final, diff, guesses, solution, [Char('\n')] + rest)
      == match CollectDiffs(g, solution, diff)
         case Ok(_) => Scored(g, DigitChar(|g|))
         case Err(e) => Failed(g, e)
  {
    var g := guesses + [solution];
    var keys := [Char('\n')] + rest;
    assert keys[0] == Char('\n');
    assert Recorded(accept, final, guesses, solution) == g;
    var t := Step(solution, accept, final, diff, guesses, solution, Char('\n'));
    assert t == match CollectDiffs(g, solution, diff)
                case Ok(_) => End(g, DigitChar(|g|))
                case Err(e) => Fail(g, e);
  }

  /** `n` presses of Enter ('\n' in raw mode). */
  function Enters(n: nat): (keys: seq<Key>)
    ensures |keys| == n && forall i :: 0 <= i < n ==> keys[i] == Char('\n')
  {
    seq(n, _ => Char('\n'))
  }

  /**
   * Submitting a full buffer that is in neither list, any number of times,
   * changes nothing: the word stays in the buffer and no guess is recorded.
   * (The recorded guesses redraw without error, as they do in every state
   * `start` reaches: see `PlayOutcome`.)
   */
  lemma {:induction false} RejectedWordIsKept<M, E>(solution: string, accept: set<string>, final: set<string>,
                                                    diff: (string, string) -> Result<M, E>,
                                                    guesses: seq<string>, word: string, n: nat, rest: seq<Key>)
    requires |word| == 5 && |guesses| < 6 && !InDictionary(word, accept, final)
    requires CollectDiffs(guesses, solution, diff).Ok?
    ensures Play(solution, accept, final, diff, guesses, word, Enters(n) + rest)
         == Play(solution, accept, final, diff, guesses, word, rest)
    decreases n
  {
    if n == 0 {
      assert Enters(n) + rest == rest;
    } else {
      var keys := Enters(n) + rest;
      assert keys[0] == Char('\n');
      assert keys[1..] == Enters(n - 1) + rest;
      assert Step(solution, accept, final, diff, guesses, word, keys[0]) == Next(word, guesses);
      RejectedWordIsKept(solution, accept, final, diff, guesses, word, n - 1, rest);
    }
  }

  /**
   * The buffer is lower-cased while a custom solution is compared as given:
   * a solution with an upper-case letter can never be guessed, and the game
   * can then only end in a loss.
   */
  lemma {:induction false} UpperCaseSolutionNeverWins<M, E>(solution: string, accept: set<string>, final: set<string>,
                                                            diff: (string, string) -> Result<M, E>,
                                                            guesses: seq<string>, word: string, keys: seq<Key>)
    requires |word| <= 5 && |guesses| < 6 && NoUpper(word)
    requires !NoUpper(solution)
    ensures var o := Play(solution, accept, final, diff, guesses, word, keys);
      o.Scored? ==> o.score == 'X'
    decreases |keys|
  {
    if keys != [] {
      match Step(solution, accept, final, diff, guesses, word, keys[0])
      case Exit =>
      case End(g, score) =>
        assert word != solution;
      case Fail(g, e) =>
      case Next(w, g) =>
        UpperCaseSolutionNeverWins(solution, accept, final, diff, g, w, keys[1..]);
    }
  }

  /** A game: its solution, its type, and the guesses made so far. */
  class Game {
    const solution: string
    const gameType: GameType
    var guesses: seq<string>

    /** `Game::new_raw`: a fresh game with no guesses. */
    constructor (solution: string, gameType: GameType)
      ensures this.solution == solution && this.gameType == gameType && guesses == []
    {
      this.solution := solution;
      this.gameType := gameType;
      guesses := [];
    }

    /**
     * `Game::draw_valid`: redraws every guess, in order, running `diff` on
     * each; the result is the first error, if any.
     */
    method DrawValid<M, E>(diff: (string, string) -> Result<M, E>) returns (failure: Option<E>)
      ensures failure.Some? <==> CollectDiffs(guesses, solution, diff).Err?
      ensures failure.Some? ==> failure.value == CollectDiffs(guesses, solution, diff).error
    {
      for i := 0 to |guesses|
        invariant forall j :: 0 <= j < i ==> diff(guesses[j], solution).Ok?
      {
        match diff(guesses[i], solution)
        case Err(e) =>
          CollectDiffsFirstError(guesses, solution, diff, i);
          return Some(e);
        case Ok(_) =>
      }
      CollectDiffsAllOk(guesses, solution, diff);
      return None;
    }

    /**
     * `Game::start`: plays the key events `keys` from an empty buffer and
     * returns the share of a finished game, `None` on Esc or at the end of
     * the input, or the error of `diff` while redrawing or sharing.
     */
    method Start<M, E>(keys: seq<Key>, accept: set<string>, final: set<string>,
                       diff: (string, string) -> Result<M, E>) returns (r: Result<Option<GameShare<M>>, E>)
      requires |guesses| < 6
      modifies this
      ensures var o := Play(solution, accept, final, diff, old(guesses), "", keys);
        && guesses == o.guesses
        && r == match o
                case Quit(_) => Ok(None)
                case Failed(_, e) => Err(e)
                case Scored(g, score) =>
                  match MakeShare(gameType, g, solution, score, diff)
                  case Ok(share) => Ok(Some(share))
                  case Err(e) => Err(e)
    {
      var word: string := "";
      for i := 0 to |keys|
        invariant |word| <= 5 && |guesses| < 6
        invariant Play(solution, accept, final, diff, old(guesses), "", keys)
               == Play(solution, accept, final, diff, guesses, word, keys[i..])
      {
        assert keys[i..][1..] == keys[i + 1..];
        match keys[i]
        case Esc =>
          return Ok(None);
        case Char(c) =>
          if IsAscii(c) && |word| < 5 {
            word := word + [ToLower(c)];
          } else if c == '\n' && |word| == 5 {
            if !InDictionary(word, accept, final) {
              // draw_invalid: the guesses are redrawn and the word stays in the buffer
              var failure := DrawValid(diff);
              if failure.Some? {
                return Err(failure.value);
              }
            } else {
              guesses := guesses + [word];
              var failure := DrawValid(diff);
              if failure.Some? {
                return Err(failure.value);
              }
              if word == solution {
                var share := MakeShare(gameType, guesses, solution, DigitChar(|guesses|), diff);
                match share
                case Ok(sh) => return Ok(Some(sh));
                case Err(e) => return Err(e);
              } else if |guesses| >= 6 {
                var share := MakeShare(gameType, guesses, solution, 'X', diff);
                match share
                case Ok(sh) => return Ok(Some(sh));
                case Err(e) => return Err(e);
              }
              word := [];
            }
          }
        case Backspace =>
          if word != [] {
            word := word[..|word| - 1];
          }
        case Other =>
      }
      return Ok(None);
    }
  }
}

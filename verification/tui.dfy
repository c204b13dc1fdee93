/**
 * The input loops of the TUI front end (src/bin/wordle/controller/tui.rs,
 * `Controller::run` and `Controller::guess`). Letters are buffered
 * lower-cased, up to five; Enter hands a full buffer to the game state,
 * whose answer is either a rejection or an acceptance with the match result
 * and, when the game is over, whether it was won. Only an accepted guess is
 * pushed to the on-screen keyboard. After the game is over the loop waits
 * for Enter or Esc and then returns the share.
 *
 * The game state (`state::guess`, `game_over`) is not part of this model:
 * every event carries the answer the game state would give if that event
 * submitted a guess. Drawing to the terminal is left out, except whether the
 * solution was written out at the end.
 */
module Tui {
  import opened Wrappers
  import opened Ascii

  /** The key codes `run` tells apart; other keys and non-key events are `Other`. */
  datatype Code = Esc | Char(c: char) | Enter | Backspace | Other

  /** The game state's answer to a guess: `Err(_)`, or `Ok(matches)` and then `game_over()`. */
  datatype Answer<M> = Rejected | Accepted(matches: M, gameOver: Option<bool>)

  /** One input event, with the answer used if this event submits a guess. */
  datatype Event<M> = Event(code: Code, answer: Answer<M>)

  /**
   * Where `run` is: in the input loop, in the wait loop after the game ended
   * (won or not), returned `None` after Esc, or returned the share.
   */
  datatype Phase = Typing | Over(win: bool) | Quit | Shared(win: bool)

  /**
   * The observable state of `run`: the letter buffer, the phase, every
   * `(word, matches)` pushed to the keyboard in order, and whether the
   * solution was written out.
   */
  datatype Session<M> = Session(word: string, phase: Phase, pushes: seq<(string, M)>, revealed: bool)

  predicate Finished(p: Phase) { p.Quit? || p.Shared? }

  /** The solution is written out exactly when the game ended and was lost. */
  predicate Lost(p: Phase) { p == Over(false) || p == Shared(false) }

  /** What holds of every session `run` reaches. */
  predicate Valid<M>(s: Session<M>)
  {
    && |s.word| <= 5 && AllLower(s.word)
    && (forall i :: 0 <= i < |s.pushes| ==> |s.pushes[i].0| == 5 && AllLower(s.pushes[i].0))
    && (s.revealed <==> Lost(s.phase))
  }

  /** A full buffer submitted by Enter while typing. */
  predicate Submits<M>(s: Session<M>, e: Event<M>)
  {
    s.phase == Typing && e.code == Enter && |s.word| == 5
  }

  /** A key that reaches the input loop's `_ => {}` arm. */
  predicate Ignored(word: string, code: Code)
  {
    code == Other || (code.Char? && !(IsAlphabetic(code.c) && |word| < 5))
  }

  /** One event of `run`: an arm of the input loop's `match`, or of the wait loop's. */
  function Step<M>(s: Session<M>, e: Event<M>): (t: Session<M>)
    ensures Valid(s) ==> Valid(t)
    // the keyboard gets exactly one push per accepted guess, and nothing else
    ensures Submits(s, e) && e.answer.Accepted? ==> t.pushes == s.pushes + [(s.word, e.answer.matches)]
    ensures !(Submits(s, e) && e.answer.Accepted?) ==> t.pushes == s.pushes
    // Enter without a full buffer, and a rejected guess, change nothing
    ensures s.phase == Typing && e.code == Enter && (|s.word| != 5 || e.answer.Rejected?) ==> t == s
    // an accepted guess either ends the game with its win flag or clears the buffer
    ensures Submits(s, e) && e.answer.Accepted? && e.answer.gameOver.Some? ==>
              t.phase == Over(e.answer.gameOver.value)
    ensures Submits(s, e) && e.answer.Accepted? && e.answer.gameOver.None? ==>
              t.phase == Typing && t.word == []
    // a letter is buffered, lower-cased, exactly when it is alphabetic and the buffer is short
    ensures s.phase == Typing && e.code.Char? && IsAlphabetic(e.code.c) && |s.word| < 5 ==>
              t == s.(word := s.word + [ToLower(e.code.c)])
    ensures |t.word| > |s.word| ==>
              s.phase == Typing && e.code.Char? && IsAlphabetic(e.code.c) && |s.word| < 5
    // Backspace drops the last letter, if any
    ensures s.phase == Typing && e.code == Backspace ==>
              t.phase == Typing && (s.word == [] ==> t.word == []) &&
              (s.word != [] ==> t.word + [s.word[|s.word| - 1]] == s.word)
    // Esc while typing, and nothing else, returns no share
    ensures s.phase == Typing && e.code == Esc ==> t.phase == Quit
    ensures t.phase == Quit ==> s.phase == Quit || (s.phase == Typing && e.code == Esc)
    // while typing, the game ends only through an accepted guess whose answer says so
    ensures s.phase == Typing ==>
              t.phase == Typing || t.phase == Quit ||
              (t.phase.Over? && Submits(s, e) && e.answer.Accepted? && e.answer.gameOver == Some(t.phase.win))
    // every other key while typing changes nothing
    ensures s.phase == Typing && Ignored(s.word, e.code) ==> t == s
    // after the game is over, only Enter or Esc moves on, and then to the share
    ensures s.phase.Over? ==>
              t == if e.code == Enter || e.code == Esc then s.(phase := Shared(s.phase.win)) else s
    ensures Finished(s.phase) ==> t == s
  {
    match s.phase
    case Typing =>
      (match e.code
       case Esc => s.(phase := Quit)
       case Char(c) =>
         if IsAlphabetic(c) && |s.word| < 5 then s.(word := s.word + [ToLower(c)]) else s
       case Enter =>
         if |s.word| == 5 then
           (match e.answer
            case Rejected => s
            case Accepted(m, over) =>
              var pushes := s.pushes + [(s.word, m)];
              if over.Some? then s.(pushes := pushes, phase := Over(over.value), revealed := s.revealed || !over.value)
              else s.(pushes := pushes, word := []))
         else s
       case Backspace => s.(word := if s.word == [] then [] else s.word[..|s.word| - 1])
       case Other => s)
    case Over(win) =>
      if e.code == Enter || e.code == Esc then s.(phase := Shared(win)) else s
    case Quit => s
    case Shared(_) => s
  }

  /** `run` over the events `events`, stopping once it has returned. */
  function Drive<M>(s: Session<M>, events: seq<Event<M>>): (t: Session<M>)
    decreases |events|
  {
    if events == [] || Finished(s.phase) then s else Drive(Step(s, events[0]), events[1..])
  }

  /**
   * Every session `run` reaches is valid, and the keyboard pushes of a run
   * extend those it started with.
   */
  lemma {:induction false} DriveKeepsValid<M>(s: Session<M>, events: seq<Event<M>>)
    requires Valid(s)
    ensures var t := Drive(s, events);
      Valid(t) && |s.pushes| <= |t.pushes| && t.pushes[..|s.pushes|] == s.pushes
    decreases |events|
  {
    if events != [] && !Finished(s.phase) {
      var s' := Step(s, events[0]);
      DriveKeepsValid(s', events[1..]);
      var t := Drive(s', events[1..]);
      assert t.pushes[..|s'.pushes|][..|s.pushes|] == t.pushes[..|s.pushes|];
    }
  }

  predicate IsLeaveKey(c: Code) { c == Enter || c == Esc }

  /** One event of the input loop. */
  lemma TypingStep<M>(s: Session<M>, events: seq<Event<M>>)
    requires s.phase == Typing && events != []
    ensures Drive(s, events) == Drive(Step(s, events[0]), events[1..])
  {
  }

  /** One event of the wait loop. */
  lemma WaitStep<M>(s: Session<M>, events: seq<Event<M>>)
    requires s.phase.Over? && events != []
    ensures Drive(s, events) ==
      if IsLeaveKey(events[0].code) then s.(phase := Shared(s.phase.win)) else Drive(s, events[1..])
  {
  }

  /**
   * The wait loop: once the game is over, the share is returned exactly when
   * an Enter or Esc arrives, and nothing else changes.
   */
  lemma {:induction false} WaitLoop<M>(s: Session<M>, events: seq<Event<M>>)
    requires s.phase.Over?
    ensures Drive(s, events) ==
      if exists i :: 0 <= i < |events| && IsLeaveKey(events[i].code)
      then s.(phase := Shared(s.phase.win)) else s
    decreases |events|
  {
    if events != [] && !IsLeaveKey(events[0].code) {
      WaitLoop(s, events[1..]);
      if exists i :: 0 <= i < |events| && IsLeaveKey(events[i].code) {
        var i :| 0 <= i < |events| && IsLeaveKey(events[i].code);
        assert IsLeaveKey(events[1..][i - 1].code);
      }
    }
  }

  /**
   * A game only ends through an accepted guess whose answer says so: the
   * last keyboard push carries that answer's match result.
   */
  lemma {:induction false} GameOverNeedsAcceptedGuess<M>(s: Session<M>, events: seq<Event<M>>)
    requires s.phase == Typing
    ensures var t := Drive(s, events);
      (t.phase.Over? || t.phase.Shared?) ==>
        |t.pushes| > |s.pushes| &&
        exists k :: 0 <= k < |events| && events[k].code == Enter &&
          events[k].answer == Accepted(t.pushes[|t.pushes| - 1].1, Some(t.phase.win))
    decreases |events|
  {
    var t := Drive(s, events);
    if events != [] && (t.phase.Over? || t.phase.Shared?) {
      var s' := Step(s, events[0]);
      assert t == Drive(s', events[1..]);
      if s'.phase == Quit {
        // `run` has returned without a share
        assert false;
      } else if s'.phase == Typing {
        GameOverNeedsAcceptedGuess(s', events[1..]);
        var k :| 0 <= k < |events[1..]| && events[1..][k].code == Enter &&
          events[1..][k].answer == Accepted(t.pushes[|t.pushes| - 1].1, Some(t.phase.win));
        assert events[k + 1] == events[1..][k];
      } else {
        WaitLoop(s', events[1..]);
        assert events[0].answer == Accepted(t.pushes[|t.pushes| - 1].1, Some(t.phase.win));
      }
    }
  }

  /** `n` presses of Enter, each answered with a rejection. */
  function Rejections<M>(n: nat): (events: seq<Event<M>>)
    ensures |events| == n && forall i :: 0 <= i < n ==> events[i] == Event(Enter, Rejected)
  {
    seq(n, _ => Event(Enter, Rejected))
  }

  /** Rejected guesses, any number of them, leave the whole run as it was. */
  lemma {:induction false} RejectionsChangeNothing<M>(s: Session<M>, n: nat, rest: seq<Event<M>>)
    requires s.phase == Typing
    ensures Drive(s, Rejections(n) + rest) == Drive(s, rest)
    decreases n
  {
    if n == 0 {
      assert Rejections<M>(n) + rest == rest;
    } else {
      var events := Rejections<M>(n) + rest;
      assert events[0] == Event(Enter, Rejected);
      assert events[1..] == Rejections<M>(n - 1) + rest;
      RejectionsChangeNothing(s, n - 1, rest);
    }
  }

  /**
   * The wait loop of `run`, once the game is over: it returns the share on
   * the first Enter or Esc and ignores everything else.
   */
  method AwaitShare<M>(s: Session<M>, events: seq<Event<M>>) returns (phase: Phase)
    requires s.phase.Over?
    ensures Drive(s, events) == s.(phase := phase)
  {
    var i := 0;
    while i < |events|
      invariant 0 <= i <= |events|
      invariant Drive(s, events) == Drive(s, events[i..])
    {
      assert events[i..][1..] == events[i + 1..];
      WaitStep(s, events[i..]);
      if IsLeaveKey(events[i].code) {
        return Shared(s.phase.win);
      }
      i := i + 1;
    }
    return s.phase;
  }

  /** The controller: the keyboard's pushes and whether the solution was written out. */
  class Controller<M> {
    var keyboard: seq<(string, M)>
    var revealed: bool

    /** `Controller::new`: an empty keyboard. */
    constructor ()
      ensures keyboard == [] && !revealed
    {
      keyboard := [];
      revealed := false;
    }

    /**
     * `Controller::guess`: hands `word` to the game state and, only when it
     * is accepted, pushes the word and its match result to the keyboard.
     */
    method Guess(word: string, answer: Answer<M>) returns (ok: bool)
      modifies this`keyboard
      ensures ok <==> answer.Accepted?
      ensures keyboard == if ok then old(keyboard) + [(word, answer.matches)] else old(keyboard)
    {
      match answer
      case Rejected =>
        ok := false;
      case Accepted(matches, _) =>
        keyboard := keyboard + [(word, matches)];
        ok := true;
    }

    /**
     * One event of the input loop of `run`, the arms of its `match`: the new
     * buffer, and whether the loop goes on (`Typing`), returns `None` on Esc
     * (`Quit`) or breaks out with the win flag (`Over(win)`).
     */
    method Key(word: string, e: Event<M>) returns (word': string, phase: Phase)
      modifies this`keyboard
      ensures Step(Session(word, Typing, old(keyboard), revealed), e)
           == Session(word', phase, keyboard, revealed || Lost(phase))
    {
      word', phase := word, Typing;
      match e.code
      case Esc =>
        phase := Quit;
      case Char(c) =>
        if IsAlphabetic(c) && |word| < 5 {
          word' := word + [ToLower(c)];
        }
      case Enter =>
        if |word| == 5 {
          var ok := Guess(word, e.answer);
          if ok {
            if e.answer.gameOver.Some? {
              phase := Over(e.answer.gameOver.value);
            } else {
              word' := [];
            }
          } else {
            // display_invalid: the word stays in the buffer
          }
        }
      case Backspace =>
        if word != [] {
          word' := word[..|word| - 1];
        }
      case Other =>
    }

    /**
     * `Controller::run` over the events `events`. Returns `Quit` (no share),
     * `Shared(win)` (the share), or, when the events run out first, the phase
     * in which `run` is still waiting for input.
     */
    method Run(events: seq<Event<M>>) returns (phase: Phase)
      modifies this
      ensures var t := Drive(Session("", Typing, old(keyboard), old(revealed)), events);
        phase == t.phase && keyboard == t.pushes && revealed == t.revealed
    {
      ghost var start := Session("", Typing, keyboard, revealed);
      var word: string := "";
      var i := 0;
      phase := Typing;
      while i < |events| && phase == Typing
        invariant 0 <= i <= |events|
        invariant phase == Typing || phase == Quit || phase.Over?
        invariant Drive(start, events) == Drive(Session(word, phase, keyboard, revealed || Lost(phase)), events[i..])
      {
        assert events[i..][1..] == events[i + 1..];
        TypingStep(Session(word, Typing, keyboard, revealed), events[i..]);
        word, phase := Key(word, events[i]);
        i := i + 1;
      }
      if !phase.Over? {
        return;
      }
      if !phase.win {
        // write_final_solution
        revealed := true;
      }
      phase := AwaitShare(Session(word, phase, keyboard, revealed), events[i..]);
    }
  }
}

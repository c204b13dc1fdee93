/**
 * The shareable summary of a finished game (src/game.rs): how a game type
 * is displayed, how `Game::share` turns the guess history into one match
 * result per guess, and how `GameShare` is displayed as text.
 *
 * `logic::diff` and the `Display` of its `Matches` are not part of this
 * model: they are the parameters `diff` and `show`.
 */
module Share {
  import opened Wrappers

  /** Which puzzle is being played: the puzzle of a given day, or a custom word. */
  datatype GameType = Daily(day: nat) | Custom

  /** The summary returned when a game ends: one match result per guess, in guess order. */
  datatype GameShare<M> = GameShare(gameType: GameType, matches: seq<M>, score: char)

  // ---------------------------------------------------------------------
  // Decimal text of a day number (`write!(f, "{}", day)` on a `usize`)
  // ---------------------------------------------------------------------

  predicate IsDigit(c: char) { '0' <= c <= '9' }

  predicate IsDigits(s: string)
  {
    forall i :: 0 <= i < |s| ==> IsDigit(s[i])
  }

  /** The character of decimal digit `d`, as `char::from_digit(d, 10)` gives it. */
  function DigitChar(d: nat): (c: char)
    requires d < 10
    ensures IsDigit(c) && c as int - '0' as int == d
  {
    ('0' as int + d) as char
  }

  /** Decimal text of `n`, most significant digit first, without leading zeros. */
  function NatToString(n: nat): (s: string)
    ensures |s| >= 1 && IsDigits(s)
    ensures s[0] == '0' ==> s == "0"
    decreases n
  {
    if n < 10 then [DigitChar(n)] else NatToString(n / 10) + [DigitChar(n % 10)]
  }

  /** Value of a string of decimal digits; the inverse of `NatToString`. */
  function ParseNat(s: string): (n: nat)
    requires IsDigits(s)
    decreases |s|
  {
    if s == [] then 0 else ParseNat(s[..|s| - 1]) * 10 + (s[|s| - 1] as int - '0' as int)
  }

  lemma {:induction false} ParseNatToString(n: nat)
    ensures ParseNat(NatToString(n)) == n
    decreases n
  {
    if n >= 10 {
      var s := NatToString(n);
      assert s[..|s| - 1] == NatToString(n / 10);
      ParseNatToString(n / 10);
    }
  }

  /** `GameType`'s `Display`: the day number in decimal, or "custom". */
  function GameTypeText(t: GameType): (s: string)
    ensures |s| >= 1 && '\n' !in s
    ensures t.Custom? <==> s == "custom"
    ensures t.Daily? ==> IsDigits(s) && ParseNat(s) == t.day
  {
    match t
    case Daily(day) =>
      ParseNatToString(day);
      var s := NatToString(day);
      assert s[0] != "custom"[0];
      s
    case Custom => "custom"
  }

  // ---------------------------------------------------------------------
  // Game::share: one `diff` result per guess, collected into a Result
  // ---------------------------------------------------------------------

  /**
   * `guesses.into_iter().map(|g| diff(g, solution)).collect::<Result<_>>()`:
   * the match result of every guess, in order, or the first error
   * (`CollectDiffsFirstError`, `CollectDiffsAllOk`).
   */
  function CollectDiffs<M, E>(guesses: seq<string>, solution: string, diff: (string, string) -> Result<M, E>)
    : (r: Result<seq<M>, E>)
    ensures r.Ok? ==>
      |r.value| == |guesses| &&
      forall i :: 0 <= i < |guesses| ==> diff(guesses[i], solution) == Ok(r.value[i])
    decreases |guesses|
  {
    if guesses == [] then Ok([])
    else
      match diff(guesses[0], solution)
      case Err(e) => Err(e)
      case Ok(m) =>
        match CollectDiffs(guesses[1..], solution, diff)
        case Err(e) => Err(e)
        case Ok(ms) => Ok([m] + ms)
  }

  /** Collecting stops at the first guess whose `diff` fails, with its error. */
  lemma {:induction false} CollectDiffsFirstError<M, E>(guesses: seq<string>, solution: string,
                                                        diff: (string, string) -> Result<M, E>, k: nat)
    requires k < |guesses| && diff(guesses[k], solution).Err?
    requires forall i :: 0 <= i < k ==> diff(guesses[i], solution).Ok?
    ensures CollectDiffs(guesses, solution, diff) == Err(diff(guesses[k], solution).error)
    decreases k
  {
    if k > 0 {
      assert diff(guesses[0], solution).Ok?;
      assert forall i :: 0 <= i < k - 1 ==> guesses[1..][i] == guesses[i + 1];
      CollectDiffsFirstError(guesses[1..], solution, diff, k - 1);
    }
  }

  /** Collecting succeeds when every `diff` does. */
  lemma {:induction false} CollectDiffsAllOk<M, E>(guesses: seq<string>, solution: string,
                                                   diff: (string, string) -> Result<M, E>)
    requires forall i :: 0 <= i < |guesses| ==> diff(guesses[i], solution).Ok?
    ensures CollectDiffs(guesses, solution, diff).Ok?
    decreases |guesses|
  {
    if guesses != [] {
      assert diff(guesses[0], solution).Ok?;
      assert forall i :: 0 <= i < |guesses| - 1 ==> guesses[1..][i] == guesses[i + 1];
      CollectDiffsAllOk(guesses[1..], solution, diff);
    }
  }

  /** `Game::share`: the summary of a game that ended with `score`. */
  function MakeShare<M, E>(gameType: GameType, guesses: seq<string>, solution: string, score: char,
                           diff: (string, string) -> Result<M, E>): (r: Result<GameShare<M>, E>)
    ensures r.Ok? <==> CollectDiffs(guesses, solution, diff).Ok?
    ensures r.Ok? ==> r.value.gameType == gameType && r.value.score == score &&
                      r.value.matches == CollectDiffs(guesses, solution, diff).value
    ensures r.Err? ==> r.error == CollectDiffs(guesses, solution, diff).error
  {
    match CollectDiffs(guesses, solution, diff)
    case Ok(ms) => Ok(GameShare(gameType, ms, score))
    case Err(e) => Err(e)
  }

  // ---------------------------------------------------------------------
  // GameShare's Display: "Wordle {game_type} {score}/6", then "\n{m}" per guess
  // ---------------------------------------------------------------------

  function Header(gameType: GameType, score: char): (h: string)
  {
    "Wordle " + GameTypeText(gameType) + " " + [score] + "/6"
  }

  /** The lines after the header: "\n" followed by the rendering of each match, in order. */
  function Body<M>(ms: seq<M>, show: M -> string): (text: string)
    decreases |ms|
  {
    if ms == [] then "" else Body(ms[..|ms| - 1], show) + "\n" + show(ms[|ms| - 1])
  }

  function ShareText<M>(share: GameShare<M>, show: M -> string): (text: string)
  {
    Header(share.gameType, share.score) + Body(share.matches, show)
  }

  /** Writes the share the way `GameShare::fmt` does: the header, then one line per match. */
  method Render<M>(share: GameShare<M>, show: M -> string) returns (out: string)
    ensures out == ShareText(share, show)
  {
    out := "Wordle " + GameTypeText(share.gameType) + " " + [share.score] + "/6";
    for i := 0 to |share.matches|
      invariant out == Header(share.gameType, share.score) + Body(share.matches[..i], show)
    {
      assert share.matches[..i + 1][..i] == share.matches[..i];
      out := out + "\n" + show(share.matches[i]);
    }
    assert share.matches[..|share.matches|] == share.matches;
  }

  // ---------------------------------------------------------------------
  // Reading a share back: its header and its lines
  // ---------------------------------------------------------------------

  /** Reads a header line back into the game type and score it shows. */
  function ParseHeader(s: string): (r: Option<(GameType, char)>)
  {
    if |s| < 12 || s[..7] != "Wordle " || s[|s| - 4] != ' ' || s[|s| - 2..] != "/6" then None
    else
      var mid := s[7..|s| - 4];
      if mid == "custom" then Some((Custom, s[|s| - 3]))
      else if |mid| > 0 && IsDigits(mid) then Some((Daily(ParseNat(mid)), s[|s| - 3]))
      else None
  }

  /** The header shows the game type and the score so that both can be read back. */
  lemma HeaderRoundTrip(gameType: GameType, score: char)
    ensures ParseHeader(Header(gameType, score)) == Some((gameType, score))
  {
    var text := GameTypeText(gameType);
    var h := Header(gameType, score);
    assert |h| == |text| + 11;
    assert h[..7] == "Wordle ";
    assert h[7..|h| - 4] == text;
    assert h[|h| - 4] == ' ' && h[|h| - 3] == score;
    assert h[|h| - 2..] == "/6";
  }

  /** The header is a single line. */
  lemma HeaderSingleLine(gameType: GameType, score: char)
    requires score != '\n'
    ensures '\n' !in Header(gameType, score)
  {
  }

  /** `s` split at every '\n', as `str::split('\n')` does. */
  function SplitLines(s: string): (r: seq<string>)
    ensures |r| >= 1
    decreases |s|
  {
    if s == [] then [""]
    else if s[|s| - 1] == '\n' then SplitLines(s[..|s| - 1]) + [""]
    else
      var p := SplitLines(s[..|s| - 1]);
      p[..|p| - 1] + [p[|p| - 1] + [s[|s| - 1]]]
  }

  lemma {:induction false} SplitLinesSingle(s: string)
    requires '\n' !in s
    ensures SplitLines(s) == [s]
    decreases |s|
  {
    if s != [] {
      var init, last := s[..|s| - 1], s[|s| - 1];
      assert last in s;
      assert forall c :: c in init ==> c in s;
      SplitLinesSingle(init);
      assert init + [last] == s;
    }
  }

  lemma {:induction false} SplitLinesAppend(a: string, b: string)
    requires '\n' !in b
    ensures SplitLines(a + "\n" + b) == SplitLines(a) + [b]
    decreases |b|
  {
    var s := a + "\n" + b;
    if b == [] {
      assert s[..|s| - 1] == a;
    } else {
      var b' := b[..|b| - 1];
      assert s[..|s| - 1] == a + "\n" + b';
      assert '\n' !in b';
      SplitLinesAppend(a, b');
      assert b' + [b[|b| - 1]] == b;
    }
  }

  /** The rendering of each match, in order. */
  function Shown<M>(ms: seq<M>, show: M -> string): (r: seq<string>)
    ensures |r| == |ms| && forall i :: 0 <= i < |ms| ==> r[i] == show(ms[i])
    decreases |ms|
  {
    if ms == [] then [] else Shown(ms[..|ms| - 1], show) + [show(ms[|ms| - 1])]
  }

  lemma {:induction false} BodyLines<M>(h: string, ms: seq<M>, show: M -> string)
    requires '\n' !in h
    requires forall i :: 0 <= i < |ms| ==> '\n' !in show(ms[i])
    ensures SplitLines(h + Body(ms, show)) == [h] + Shown(ms, show)
    decreases |ms|
  {
    if ms == [] {
      assert h + Body(ms, show) == h;
      SplitLinesSingle(h);
    } else {
      var n := |ms| - 1;
      BodyLines(h, ms[..n], show);
      assert h + Body(ms, show) == (h + Body(ms[..n], show)) + "\n" + show(ms[n]);
      SplitLinesAppend(h + Body(ms[..n], show), show(ms[n]));
    }
  }

  /**
   * The text of a share is its header line followed by exactly one line per
   * guess, in guess order, provided no rendered match contains a line break.
   */
  lemma ShareTextLines<M>(share: GameShare<M>, show: M -> string)
    requires share.score != '\n'
    requires forall i :: 0 <= i < |share.matches| ==> '\n' !in show(share.matches[i])
    ensures var lines := SplitLines(ShareText(share, show));
      |lines| == |share.matches| + 1 &&
      lines[0] == Header(share.gameType, share.score) &&
      forall i :: 0 <= i < |share.matches| ==> lines[i + 1] == show(share.matches[i])
  {
    HeaderSingleLine(share.gameType, share.score);
    BodyLines(Header(share.gameType, share.score), share.matches, show);
  }
}

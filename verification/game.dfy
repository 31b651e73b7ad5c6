/** One player's game: the category record, the session record, the
    transition a submitted guess causes and the view a session renders to. */
module Game {
  import opened Text

  /** A word to guess, with the hints that reveal it one by one. */
  datatype Category = Category(name: string, keyWord: string, hints: seq<string>)

  /** A player's game in progress. `hintIndex` counts the hints revealed so
      far; `expiresAt` is an absolute time on the same clock as `now`. */
  datatype Session = Session(
    category: string,
    keyWord: string,
    hints: seq<string>,
    hintIndex: int,
    guesses: seq<string>,
    won: bool,
    expiresAt: int)

  /** The outcome of a step that can be refused with a client error. */
  datatype Result<T> = Ok(value: T) | Err(message: string)

  /** A game ends after this many guesses. */
  const MaxAttempts: nat := 5

  /** Ten minutes, on a clock that counts nanoseconds like Go's time.Duration. */
  const SessionLifetime: int := 10 * 60 * 1_000_000_000

  const EmptyGuessMessage: string := "Guess cannot be empty"

  /** A category the game can be played with: it has a first hint to show. */
  predicate ValidCategory(c: Category) {
    |c.hints| >= 1
  }

  /** A session whose hint index can be clamped and used to index its hints. */
  predicate WellFormed(s: Session) {
    |s.hints| >= 1 && 0 <= s.hintIndex <= |s.hints|
  }

  /** A session that has not started: no hint revealed, no guess, not won,
      expiring one lifetime after `now`. */
  function NewSession(c: Category, now: int): (s: Session)
    ensures ValidCategory(c) ==> WellFormed(s)
  {
    Session(c.name, c.keyWord, c.hints, 0, [], false, now + SessionLifetime)
  }

  /** Submitting `guess` to `s`. */
  function ApplyGuess(s: Session, guess: string): (r: Result<Session>)
    // an empty guess is refused before anything changes
    ensures r.Err? <==> guess == ""
    ensures r.Err? ==> r.message == EmptyGuessMessage
    // a non-empty guess is appended after the earlier ones
    ensures r.Ok? ==> |r.value.guesses| == |s.guesses| + 1
    ensures r.Ok? ==> r.value.guesses[..|s.guesses|] == s.guesses
    ensures r.Ok? ==> r.value.guesses[|s.guesses|] == guess
    // the game is won exactly when it was won already or the guess matches
    ensures r.Ok? ==> (r.value.won <==> s.won || EqualFold(guess, s.keyWord))
    // a miss reveals one more hint while any is left; a match reveals none
    ensures r.Ok? ==> (r.value.hintIndex == s.hintIndex + 1 <==> !EqualFold(guess, s.keyWord) && s.hintIndex < |s.hints|)
    ensures r.Ok? ==> r.value.hintIndex == s.hintIndex || r.value.hintIndex == s.hintIndex + 1
    ensures r.Ok? && WellFormed(s) ==> WellFormed(r.value)
    // nothing else about the session changes
    ensures r.Ok? ==> r.value.(guesses := s.guesses, won := s.won, hintIndex := s.hintIndex) == s
  {
    if guess == "" then
      Err(EmptyGuessMessage)
    else
      var appended := s.(guesses := s.guesses + [guess]);
      if EqualFold(guess, s.keyWord) then
        Ok(appended.(won := true))
      else if s.hintIndex < |s.hints| then
        Ok(appended.(hintIndex := s.hintIndex + 1))
      else
        Ok(appended)
  }

  /** Submitting a list of guesses one after another, stopping at the first
      refusal. */
  function ApplyGuesses(s: Session, gs: seq<string>): Result<Session>
    decreases |gs|
  {
    if gs == [] then Ok(s)
    else
      match ApplyGuess(s, gs[0])
      case Err(m) => Err(m)
      case Ok(next) => ApplyGuesses(next, gs[1..])
  }

  /** A run of non-empty wrong guesses reveals one hint per guess until the
      hints run out, records every guess in order and leaves `won` alone. */
  lemma {:induction false} MissesRevealHints(s: Session, gs: seq<string>)
    requires 0 <= s.hintIndex <= |s.hints|
    requires forall i :: 0 <= i < |gs| ==> gs[i] != "" && !EqualFold(gs[i], s.keyWord)
    ensures ApplyGuesses(s, gs).Ok?
    ensures ApplyGuesses(s, gs).value.guesses == s.guesses + gs
    ensures ApplyGuesses(s, gs).value.won == s.won
    ensures ApplyGuesses(s, gs).value.hintIndex ==
              if s.hintIndex + |gs| <= |s.hints| then s.hintIndex + |gs| else |s.hints|
    decreases |gs|
  {
    if gs != [] {
      var next := ApplyGuess(s, gs[0]).value;
      assert next.keyWord == s.keyWord && next.hints == s.hints;
      MissesRevealHints(next, gs[1..]);
      assert s.guesses + gs == (s.guesses + [gs[0]]) + gs[1..];
    }
  }

  /** What the game page shows. */
  datatype View = View(
    currentHint: string,
    allHints: seq<string>,
    guesses: seq<string>,
    attempts: int,
    maxAttempts: int,
    won: bool,
    keyWord: string)

  /** Rendering shows at least one hint: a hint index of 0 is raised to 1. */
  function ClampHintIndex(s: Session): (r: Session)
    ensures WellFormed(s) ==> WellFormed(r) && r.hintIndex >= 1
    ensures s.hintIndex <= r.hintIndex
    ensures s.hintIndex == 0 ==> r.hintIndex == 1
    ensures s.hintIndex != 0 ==> r == s
    ensures r.(hintIndex := s.hintIndex) == s
  {
    if s.hintIndex == 0 then s.(hintIndex := 1) else s
  }

  /** The page for a clamped session: the hints revealed so far, the newest of
      them as the current hint, and the guesses made so far. */
  function Render(s: Session): (v: View)
    requires WellFormed(s) && s.hintIndex >= 1
    ensures |v.allHints| == s.hintIndex
    ensures forall i :: 0 <= i < |v.allHints| ==> v.allHints[i] == s.hints[i]
    ensures v.allHints[|v.allHints| - 1] == v.currentHint
    ensures v.guesses == s.guesses && v.attempts == |s.guesses|
    ensures v.maxAttempts == MaxAttempts
    ensures v.won == s.won && v.keyWord == s.keyWord
  {
    View(s.hints[s.hintIndex - 1], s.hints[..s.hintIndex], s.guesses, |s.guesses|,
         MaxAttempts, s.won, s.keyWord)
  }
}

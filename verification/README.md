# Word-guessing game: session store and game state machine

A Dafny model of the core of a small web word-guessing game written in Go.
A player is shown hints for a hidden key word from a category, submits
guesses, and each wrong guess reveals one more hint. The game ends after a
correct guess or five guesses. Games live in an in-memory map from session id
(the cookie value) to session.
The model covers how that map and its sessions change.

- `Text` (`text.dfy`): ASCII case-insensitive comparison, standing in for
  `strings.EqualFold`. Also prefix tests and the decimal rendering used for the
  `preloaded-%d` ids.
- `Game` (`game.dfy`): the `Category` and `Session` records, the guess
  transition, the hint-index clamp and the page view.
- `Store` (`store.dfy`): the `map<string, Session>` store. It covers lookup or
  replacement (`getSession`), the expiry sweep, preloading at start-up and the
  choice of a preloaded id for a visitor without a cookie.
- `Handler` (`handler.dfy`): one request to the game page with HTTP removed:
  lookup, guess, clamp, render. It also holds scenario lemmas.

Time and randomness are parameters. `now: int` is a clock reading in
nanoseconds, and a session lives `10 * 60 * 10^9` of them. The category index `k`
stands for `rand.Intn`, a permutation `perm` stands for `rand.Shuffle`, and
a key sequence `order` stands for Go's map iteration order.

The Go code shares each session by pointer with the store. So the clamp of
the hint index to at least 1 during rendering is written back to the stored
session. A refused empty guess returns before that clamp. `Handler.HandleGame`
models both effects. One consequence is proved in
`Handler.FirstMissDependsOnPageLoad`. A wrong first guess posted without a
prior page load leaves the first hint current. After a page load, the same
guess reveals the second hint.

Three further consequences of the code, each reflected in the model:
- Nothing claims a preloaded id when it is handed out, so several visitors
  can receive the same id.
- The key word is passed to the page on every render, won or not.
- For a category with at least three hints, two wrong guesses give hint index
  2 only when no page load came before them.

## Model

| member | source | states |
|---|---|---|
| `Text.NatToStringInjective` | main.go:82 | the decimal renderings of two different numbers differ, so distinct preload numbers give distinct ids |
| `Game.ApplyGuess` | main.go:207-218 | an empty guess is refused with "Guess cannot be empty" and changes nothing; otherwise the guess goes after the earlier ones, `won` becomes true exactly when the guess matches the key word ignoring case (or was already true), a miss reveals one more hint exactly when some is left, a match reveals none, a hint index between 0 and the number of hints stays so and no other field changes |
| `Game.MissesRevealHints` | main.go:212-218 | a run of non-empty wrong guesses records them all in order, keeps `won`, and leaves the hint index at the starting index plus the number of guesses, capped at the number of hints |
| `Game.ClampHintIndex` | main.go:223-225 | a hint index of 0 becomes exactly 1 and any other index is left as it is, so a well-formed session shows at least one hint and stays within its hints; nothing else changes |
| `Game.Render` | main.go:227-245 | the page lists exactly the first `hintIndex` hints, the current hint is the last of them, attempts equal the number of guesses and the maximum is 5 |
| `Store.GetSession` | main.go:160-178 | the store is unchanged exactly when the stored session exists, is not past expiry, is not won and has fewer than 5 guesses, and then that session is returned; otherwise a new session from category `k` (hint 0, no guesses, not won, expiring 10 minutes after `now`) is stored under the id; the returned session is always reusable, and no other key is touched |
| `Store.Sweep` | main.go:185-191 | the entry-by-entry deletion loop keeps exactly the entries whose expiry is not before `now`, with their sessions unchanged, and every deleted entry had expired |
| `Store.SweepsCompose` | main.go:181-192 | sweeping twice at the same time equals sweeping once, and a later sweep subsumes an earlier one |
| `Store.SweepInvisibleToLookup` | main.go:160-190 | a sweep at or before a lookup's time does not change the session the lookup returns, and lookup-then-sweep gives the same store as sweep-then-lookup |
| `Store.FirstAssignable` | main.go:151-156 | the result is "" when no key in the iteration order is a preloaded id expiring after `now`; otherwise it is the first such key in that order |
| `Store.AssignPreloadedSessionId` | main.go:150-157 | the result is "" exactly when no stored key has the prefix "preloaded-" with a session expiring strictly after `now`; otherwise it is such a key |
| `Store.PreloadedIdInjective` | main.go:82 | "preloaded-i" and "preloaded-j" are the same key only when `i == j` |
| `Store.PreloadedIdsCount` | main.go:80-82 | the ids "preloaded-1" to "preloaded-m" are exactly `m` distinct keys |
| `Store.PreloadSessions` | main.go:71-96 | the categories are reordered by the permutation, the store gains exactly the keys "preloaded-1" to "preloaded-m" where `m` is the smaller of `count` and the number of categories (0 for a negative `count`), key `i` holds a new session from the `i`-th shuffled category, and every other entry is kept |
| `Store.PreloadedSessionIsAssigned` | main.go:150-157 | a visitor arriving before a preloaded entry's first 10 minutes are over receives some preloaded id rather than "", as long as that entry still expires no earlier than 10 minutes after its preloading |
| `Store.SweepKeepsLive` | main.go:185-190 | a sweep before a time `bound` keeps every entry that expires at or after `bound` |
| `Handler.Advance` | main.go:201-225 | a request refuses exactly an empty submission; otherwise a submitted guess is appended, the game is won exactly when it was won or the guess matches the key word ignoring case, a miss reveals one more hint while any is left, the index is then raised to at least 1 (a load only does that), and no other field changes |
| `Handler.HandleGame` | main.go:196-251 | only an empty submission is refused, and then only the lookup's effect remains; otherwise the session stored under the id is the looked-up session advanced by the request, and the page renders it with at least one hint shown; no other key changes |
| `Handler.HandleGameHistory` | main.go:160-225 | after any request the game under the id has at most 5 guesses and every stored session stays renderable; on a reusable session a non-empty guess is recorded after the earlier ones, a load records nothing, the game is won exactly when the guess matches, and hints never retract; a missing, expired, won or exhausted session is replaced, dropping its history, and wins only on a matching guess |
| `Handler.PageHintsOnlyGrow` | main.go:212-239 | on a live game, the hints a page lists after a load or a non-empty guess extend the hints the previous page listed by at most one, keeping the earlier ones in place |
| `Handler.RequestKeepsLive` | main.go:160-178 | a request never removes an entry, and leaves every entry expiring no earlier than a time `bound` at most 10 minutes after the request in that state: a reused session keeps its expiry and a replacement expires 10 minutes after the request |
| `Handler.Replay` | main.go:181-225 | running game requests and cleanup passes one after another keeps every stored session renderable, and without a cleanup no entry disappears |
| `Handler.ReplayKeepsLive` | main.go:160-190 | an entry expiring at or after `bound` survives any requests and cleanups made in the 10 minutes before `bound`, still expiring at or after `bound` |
| `Handler.PreloadedIdStaysAssignable` | main.go:150-157 | a visitor without a cookie who arrives within 10 minutes of preloading is handed some preloaded id, whatever requests (including page loads of that session) and cleanups happened in between |
| `Handler.FinishedGameIsReplaced` | main.go:164-175 | after a win or the fifth guess, the next request starts a new game from category `k`, so a won session is never extended |
| `Handler.FirstMissDependsOnPageLoad` | main.go:212-225 | a wrong first guess without a prior page load shows the first hint; after a page load it shows the second |
| `Handler.OceanScenario` | main.go:207-245 | with key word "OCEAN", guesses "river" and "lake" leave hint index 2 with "Salty" current and the game not won; "ocean" then wins, the page shows 3 attempts and the key word, and the next load starts a new game |

## Left out

- HTTP routing, the index, static-file and logging handlers, templates and the `sub`/`until` template helpers, server configuration, and log output: presentation and I/O.
- Loading `words.json` (`loadCategories`): file I/O and JSON decoding. The categories are an input. `Store.GetSession` needs only a valid index into them, and rendering needs the chosen category to have a hint.
- `getSessionID`: cookie reading and writing, and the `rand.Int` decimal id given when no preloaded id qualifies. Only its call to `assignPreloadedSessionID` is modelled.
- A form body that fails to parse (400 "Failed to parse form") and a template execution failure (500): both come from library code outside the model.
- `rand.Seed`, `rand.Shuffle`, `rand.Intn`, `time.Now()`: replaced by the parameters `perm`, `k` and `now`. Each operation reads the clock once, although the Go code calls `time.Now()` separately for its expiry test and for the new expiry.
- The background ticker goroutine and the unsynchronised shared map: each operation is modelled as one atomic step, and the data race between requests and the sweep is not modelled.
- Game.ApplyGuess: compares guesses by ASCII case folding (`Text.EqualFold`) rather than the full Unicode simple folding of `strings.EqualFold`, so it says nothing about non-ASCII letters that fold together.
- Machine integers and `time.Time` arithmetic are unbounded integers here. Overflow of the hint index or of `now + 10 minutes` is not modelled.
- The page's constant `Title` field.

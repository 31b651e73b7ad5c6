/** The game page's request step with the HTTP plumbing removed: look the
    session up (or replace it), apply a submitted guess, raise the hint index
    to at least 1 and render. In the Go code the session is shared by pointer
    with the store, so the raised hint index is written back to the store too,
    while a refused empty guess returns before that happens. */
module Handler {
  import opened Text
  import opened Game
  import opened Store

  /** A page load, or a form submission carrying the `guess` field. */
  datatype Request = Load | Submit(guess: string)

  datatype Response = BadRequest(message: string) | Page(view: View)

  /** What a request does to the session it was given: a submission applies
      the guess, and unless it was refused the hint index is raised to at
      least 1. */
  function Advance(s: Session, req: Request): (r: Result<Session>)
    requires WellFormed(s)
    ensures r.Err? <==> req.Submit? && req.guess == ""
    ensures r.Err? ==> r.message == EmptyGuessMessage
    ensures r.Ok? ==> WellFormed(r.value) && r.value.hintIndex >= 1
    ensures r.Ok? ==> s.hintIndex <= r.value.hintIndex
    ensures r.Ok? ==> r.value.guesses == if req.Submit? then s.guesses + [req.guess] else s.guesses
    ensures r.Ok? ==> (r.value.won <==> s.won || (req.Submit? && EqualFold(req.guess, s.keyWord)))
    // a load only clamps the hint index; a submission first applies the guess
    ensures r.Ok? && req.Load? ==> r.value.hintIndex == if s.hintIndex == 0 then 1 else s.hintIndex
    ensures r.Ok? && req.Submit? ==>
              var revealed := if !EqualFold(req.guess, s.keyWord) && s.hintIndex < |s.hints|
                              then s.hintIndex + 1 else s.hintIndex;
              r.value.hintIndex == if revealed == 0 then 1 else revealed
    // nothing else about the session changes
    ensures r.Ok? ==> r.value.(hintIndex := s.hintIndex, guesses := s.guesses, won := s.won) == s
  {
    match req
    case Load => Ok(ClampHintIndex(s))
    case Submit(guess) =>
      match ApplyGuess(s, guess)
      case Err(message) => Err(message)
      case Ok(next) =>
        assert next.guesses == s.guesses + [guess];
        Ok(ClampHintIndex(next))
  }

  /** One request for session `id` at `now`; `k` is the category a
      replacement session would be drawn from. */
  function HandleGame(store: Sessions, cats: seq<Category>, id: string, now: int, k: int, req: Request)
    : (r: (Sessions, Response))
    requires 0 <= k < |cats| && ValidCategory(cats[k])
    requires id in store ==> WellFormed(store[id])
    // only an empty submission is refused, and then only the lookup took effect
    ensures r.1.BadRequest? <==> req.Submit? && req.guess == ""
    ensures r.1.BadRequest? ==> r.1.message == EmptyGuessMessage
    ensures r.1.BadRequest? ==> r.0 == GetSession(store, cats, id, now, k).0
    // a page shows the session now stored under `id`, with at least one hint
    ensures id in r.0 && WellFormed(r.0[id])
    ensures r.1.Page? ==> r.0[id].hintIndex >= 1 && r.1.view == Render(r.0[id])
    ensures r.1.Page? ==> r.0[id] == Advance(GetSession(store, cats, id, now, k).1, req).value
    // no other entry changes
    ensures r.0.Keys == store.Keys + {id}
    ensures forall other :: other in store && other != id ==> r.0[other] == store[other]
  {
    var (looked, s) := GetSession(store, cats, id, now, k);
    match Advance(s, req)
    case Err(message) => (looked, BadRequest(message))
    case Ok(shown) => (looked[id := shown], Page(Render(shown)))
  }

  /** What a request does to the history of the game under `id`. */
  lemma HandleGameHistory(store: Sessions, cats: seq<Category>, id: string, now: int, k: int, req: Request)
    requires 0 <= k < |cats| && ValidCategory(cats[k])
    requires id in store ==> WellFormed(store[id])
    ensures var after := HandleGame(store, cats, id, now, k, req).0;
      // never more guesses than allowed
      && |after[id].guesses| <= MaxAttempts
      // a reusable session continues: a non-empty guess is recorded after the
      // earlier ones, a load records nothing, a match wins, hints never retract
      && (id in store && Reusable(store[id], now) ==>
            && store[id].hintIndex <= after[id].hintIndex
            && (req.Submit? && req.guess != "" ==> after[id].guesses == store[id].guesses + [req.guess])
            && (!(req.Submit? && req.guess != "") ==> after[id].guesses == store[id].guesses)
            && (after[id].won <==> req.Submit? && req.guess != "" && EqualFold(req.guess, store[id].keyWord)))
      // a missing, expired, won or exhausted session is discarded with its history
      && (!(id in store && Reusable(store[id], now)) ==>
            && after[id].keyWord == cats[k].keyWord
            && after[id].guesses == (if req.Submit? && req.guess != "" then [req.guess] else [])
            && (after[id].won <==> req.Submit? && req.guess != "" && EqualFold(req.guess, cats[k].keyWord)))
      // every stored session stays renderable
      && (AllWellFormed(store) ==> AllWellFormed(after))
  {
  }

  /** The page after a request on a live game lists every hint the previous
      page listed, in the same positions, and possibly one more. */
  lemma PageHintsOnlyGrow(store: Sessions, cats: seq<Category>, id: string, now: int, k: int, req: Request)
    requires 0 <= k < |cats| && ValidCategory(cats[k])
    requires id in store && WellFormed(store[id]) && Reusable(store[id], now)
    requires req.Submit? ==> req.guess != ""
    ensures var before := Render(ClampHintIndex(store[id])).allHints;
            var after := HandleGame(store, cats, id, now, k, req).1.view.allHints;
            && |before| <= |after| <= |before| + 1
            && after[..|before|] == before
  {
    var s := store[id];
    var shown := HandleGame(store, cats, id, now, k, req).0[id];
    assert shown == Advance(s, req).value;
  }

  /** After the last allowed guess, or a winning one, the next request starts
      a new game under the same id. */
  lemma FinishedGameIsReplaced(store: Sessions, cats: seq<Category>, id: string, now: int, k: int, req: Request)
    requires 0 <= k < |cats| && ValidCategory(cats[k])
    requires id in store && WellFormed(store[id])
    requires store[id].won || |store[id].guesses| >= MaxAttempts
    ensures GetSession(store, cats, id, now, k).1 == NewSession(cats[k], now)
    ensures HandleGame(store, cats, id, now, k, req).0[id].guesses ==
              if req.Submit? && req.guess != "" then [req.guess] else []
  {
  }

  /** A request at `now` keeps every entry that expires no earlier than
      `bound`, for any `bound` at most one lifetime after `now`: a reused
      session keeps its expiry, and a replaced one expires one lifetime after
      `now`. */
  lemma RequestKeepsLive(store: Sessions, cats: seq<Category>, id: string, now: int, k: int, req: Request,
                         key: string, bound: int)
    requires 0 <= k < |cats| && ValidCategory(cats[k])
    requires id in store ==> WellFormed(store[id])
    requires key in store && store[key].expiresAt >= bound
    requires bound <= now + SessionLifetime
    ensures var after := HandleGame(store, cats, id, now, k, req).0;
            key in after && after[key].expiresAt >= bound
  {
  }

  /** What happens to the store while the server runs: a request to the game
      page, or one pass of the background cleanup. */
  datatype Event = Visit(id: string, at: int, k: int, req: Request) | Cleanup(at: int)

  /** A request whose replacement category can be played. */
  predicate Playable(e: Event, cats: seq<Category>) {
    e.Visit? ==> 0 <= e.k < |cats| && ValidCategory(cats[e.k])
  }

  /** The store after the events, each taken as one atomic step. */
  function Replay(store: Sessions, cats: seq<Category>, events: seq<Event>): (r: Sessions)
    requires AllWellFormed(store)
    requires forall j :: 0 <= j < |events| ==> Playable(events[j], cats)
    ensures AllWellFormed(r)
    // only a cleanup removes entries
    ensures (forall j :: 0 <= j < |events| ==> events[j].Visit?) ==> store.Keys <= r.Keys
    decreases |events|
  {
    if events == [] then store
    else
      assert Playable(events[0], cats);
      var next := match events[0]
        case Visit(id, at, k, req) => HandleGame(store, cats, id, at, k, req).0
        case Cleanup(at) => Unexpired(store, at);
      Replay(next, cats, events[1..])
  }

  /** Requests and sweeps during the first lifetime of an entry never remove
      it nor bring its expiry forward. */
  lemma {:induction false} ReplayKeepsLive(store: Sessions, cats: seq<Category>, events: seq<Event>,
                                           key: string, bound: int)
    requires AllWellFormed(store)
    requires forall j :: 0 <= j < |events| ==> Playable(events[j], cats)
    requires key in store && store[key].expiresAt >= bound
    requires forall j :: 0 <= j < |events| ==> bound - SessionLifetime <= events[j].at < bound
    ensures key in Replay(store, cats, events) && Replay(store, cats, events)[key].expiresAt >= bound
    decreases |events|
  {
    if events != [] {
      assert Playable(events[0], cats);
      var next := match events[0]
        case Visit(id, at, k, req) => HandleGame(store, cats, id, at, k, req).0
        case Cleanup(at) => Unexpired(store, at);
      match events[0] {
        case Visit(id, at, k, req) =>
          RequestKeepsLive(store, cats, id, at, k, req, key, bound);
        case Cleanup(at) =>
          SweepKeepsLive(store, at, key, bound);
      }
      ReplayKeepsLive(next, cats, events[1..], key, bound);
    }
  }

  /** A preloaded session stays assignable for its whole first lifetime,
      whatever requests and sweeps happen meanwhile: every visitor without a
      cookie arriving within ten minutes of preloading is handed some
      preloaded id, even after other visitors played that session. */
  lemma PreloadedIdStaysAssignable(store: Sessions, cats: seq<Category>, events: seq<Event>,
                                   i: nat, loadedAt: int, now: int, order: seq<string>)
    requires AllWellFormed(store)
    requires forall j :: 0 <= j < |events| ==> Playable(events[j], cats)
    requires PreloadedId(i) in store && store[PreloadedId(i)].expiresAt >= loadedAt + SessionLifetime
    requires forall j :: 0 <= j < |events| ==> loadedAt <= events[j].at < loadedAt + SessionLifetime
    requires now < loadedAt + SessionLifetime
    requires forall key :: key in Replay(store, cats, events) ==> key in order
    requires forall j :: 0 <= j < |order| ==> order[j] in Replay(store, cats, events)
    ensures AssignPreloadedSessionId(Replay(store, cats, events), now, order) != ""
  {
    ReplayKeepsLive(store, cats, events, PreloadedId(i), loadedAt + SessionLifetime);
    PreloadedSessionIsAssigned(Replay(store, cats, events), i, loadedAt, now, order);
  }

  /** A miss submitted with no page load before it reveals nothing new (the
      first hint stays current), while the same miss after a page load reveals
      the second hint: the load already stored a hint index of 1. */
  lemma FirstMissDependsOnPageLoad(cats: seq<Category>, id: string, now: int, k: int, guess: string)
    requires 0 <= k < |cats| && |cats[k].hints| >= 2
    requires guess != "" && !EqualFold(guess, cats[k].keyWord)
    ensures HandleGame(map[], cats, id, now, k, Submit(guess)).1.view.currentHint == cats[k].hints[0]
    ensures var loaded := HandleGame(map[], cats, id, now, k, Load).0;
            HandleGame(loaded, cats, id, now, k, Submit(guess)).1.view.currentHint == cats[k].hints[1]
  {
    var unstarted := NewSession(cats[k], now);
    var (direct, page) := HandleGame(map[], cats, id, now, k, Submit(guess));
    assert GetSession(map[], cats, id, now, k).1 == unstarted;
    assert Advance(unstarted, Submit(guess)).value.hintIndex == 1;
    assert direct[id].hintIndex == 1;
    var loaded := HandleGame(map[], cats, id, now, k, Load).0;
    var shown := unstarted.(hintIndex := 1);
    assert loaded[id] == shown;
    assert GetSession(loaded, cats, id, now, k).1 == shown;
    assert Advance(shown, Submit(guess)).value.hintIndex == 2;
  }

  const Ocean := Category("Nature", "OCEAN", ["Found on Earth", "Salty", "Covers 70%"])

  lemma OceanMisses()
    ensures !EqualFold("river", "OCEAN") && !EqualFold("lake", "OCEAN")
  {
    assert FoldChar("river"[0]) != FoldChar("OCEAN"[0]);
  }

  lemma OceanMatches()
    ensures EqualFold("ocean", "OCEAN")
  {
  }

  function OceanSession(now: int, hintIndex: int, guesses: seq<string>, won: bool): Session {
    Session("Nature", "OCEAN", Ocean.hints, hintIndex, guesses, won, now + SessionLifetime)
  }

  lemma OceanFirstMiss(id: string, now: int)
    ensures HandleGame(map[], [Ocean], id, now, 0, Submit("river")).0 ==
            map[id := OceanSession(now, 1, ["river"], false)]
  {
    OceanMisses();
    assert GetSession(map[], [Ocean], id, now, 0).1 == OceanSession(now, 0, [], false);
  }

  lemma OceanSecondMiss(id: string, now: int)
    ensures var (after, page) := HandleGame(map[id := OceanSession(now, 1, ["river"], false)], [Ocean], id, now, 0, Submit("lake"));
            after == map[id := OceanSession(now, 2, ["river", "lake"], false)] && page.view.currentHint == "Salty"
  {
    OceanMisses();
    var before := map[id := OceanSession(now, 1, ["river"], false)];
    assert GetSession(before, [Ocean], id, now, 0).1 == OceanSession(now, 1, ["river"], false);
    assert ["river"] + ["lake"] == ["river", "lake"];
  }

  lemma OceanWin(id: string, now: int)
    ensures var (after, page) := HandleGame(map[id := OceanSession(now, 2, ["river", "lake"], false)], [Ocean], id, now, 0, Submit("ocean"));
            after == map[id := OceanSession(now, 2, ["river", "lake", "ocean"], true)]
            && page.view.won && page.view.keyWord == "OCEAN" && page.view.attempts == 3
  {
    OceanMatches();
    var before := map[id := OceanSession(now, 2, ["river", "lake"], false)];
    assert GetSession(before, [Ocean], id, now, 0).1 == OceanSession(now, 2, ["river", "lake"], false);
    assert ["river", "lake"] + ["ocean"] == ["river", "lake", "ocean"];
  }

  /** Two misses and then the key word in lower case: the second miss shows
      the second hint, the third guess wins and the page reveals the key word,
      and the next page load starts a new game. */
  lemma OceanScenario(id: string, now: int)
    ensures var s1 := HandleGame(map[], [Ocean], id, now, 0, Submit("river")).0;
            var (s2, p2) := HandleGame(s1, [Ocean], id, now, 0, Submit("lake"));
            var (s3, p3) := HandleGame(s2, [Ocean], id, now, 0, Submit("ocean"));
            && s2[id].hintIndex == 2 && p2.view.currentHint == "Salty" && !p2.view.won
            && p3.view.won && p3.view.keyWord == "OCEAN" && p3.view.attempts == 3
            && HandleGame(s3, [Ocean], id, now, 0, Load).0[id].guesses == []
  {
    OceanFirstMiss(id, now);
    OceanSecondMiss(id, now);
    OceanWin(id, now);
    var s3 := map[id := OceanSession(now, 2, ["river", "lake", "ocean"], true)];
    FinishedGameIsReplaced(s3, [Ocean], id, now, 0, Load);
  }
}

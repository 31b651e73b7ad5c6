/** The in-memory session store: a map from session id (the cookie value) to
    session, with lookup-or-replace, the periodic expiry sweep, preloading at
    start-up and the choice of a preloaded id for a visitor without a cookie.
    Each operation is one atomic step; the clock reading `now` and the random
    choices (category index, shuffle, map iteration order) are parameters. */
module Store {
  import opened Text
  import opened Game

  type Sessions = map<string, Session>

  /** Every stored session can be rendered. */
  predicate AllWellFormed(store: Sessions) {
    forall id :: id in store ==> WellFormed(store[id])
  }

  /** A stored session that a lookup at `now` hands back as it is: not past
      its expiry, not won and with guesses left. */
  predicate Reusable(s: Session, now: int) {
    !(s.expiresAt < now) && !s.won && |s.guesses| < MaxAttempts
  }

  /** Lookup for `id` at `now`. A reusable stored session is returned and the
      store is left alone; otherwise a new session from category `k` is
      stored under `id` and returned. */
  function GetSession(store: Sessions, cats: seq<Category>, id: string, now: int, k: int): (r: (Sessions, Session))
    requires 0 <= k < |cats|
    // the store is untouched exactly when the stored session is reusable
    ensures r.0 == store <==> id in store && Reusable(store[id], now)
    ensures id in store && Reusable(store[id], now) ==> r.1 == store[id]
    ensures !(id in store && Reusable(store[id], now)) ==>
              && r.1.category == cats[k].name && r.1.keyWord == cats[k].keyWord
              && r.1.hints == cats[k].hints
              && r.1.hintIndex == 0 && r.1.guesses == [] && !r.1.won
              && r.1.expiresAt == now + SessionLifetime
    // the returned session is the one stored under `id`, and is reusable
    ensures id in r.0 && r.0[id] == r.1
    ensures Reusable(r.1, now)
    // no other entry changes
    ensures r.0.Keys == store.Keys + {id}
    ensures forall other :: other in store && other != id ==> r.0[other] == store[other]
    ensures AllWellFormed(store) && ValidCategory(cats[k]) ==> AllWellFormed(r.0)
  {
    if id in store && Reusable(store[id], now) then
      (store, store[id])
    else
      var s := NewSession(cats[k], now);
      (store[id := s], s)
  }

  /** The entries a sweep at `now` keeps: those not yet past their expiry. */
  function Unexpired(store: Sessions, now: int): (r: Sessions)
    ensures forall id :: id in r <==> id in store && !(store[id].expiresAt < now)
    ensures forall id :: id in r ==> r[id] == store[id]
  {
    map id | id in store && !(store[id].expiresAt < now) :: store[id]
  }

  /** One pass of the cleanup loop: visit every id once, deleting the entry
      when its session expired before `now`. */
  method Sweep(store: Sessions, now: int) returns (r: Sessions)
    ensures forall id :: id in r <==> id in store && !(store[id].expiresAt < now)
    ensures forall id :: id in r ==> r[id] == store[id]
    ensures r == Unexpired(store, now)
  {
    r := store;
    var pending := store.Keys;
    while pending != {}
      invariant pending <= store.Keys
      invariant forall id :: id in pending ==> id in r
      invariant forall id :: id in store && id !in pending ==> (id in r <==> !(store[id].expiresAt < now))
      invariant forall id :: id in r ==> id in store && r[id] == store[id]
      decreases pending
    {
      var id :| id in pending;
      if store[id].expiresAt < now {
        r := r - {id};
      }
      pending := pending - {id};
    }
    assert r.Keys == Unexpired(store, now).Keys;
  }

  /** Sweeping is idempotent, and a later sweep subsumes an earlier one. */
  lemma SweepsCompose(store: Sessions, t1: int, t2: int)
    requires t1 <= t2
    ensures Unexpired(Unexpired(store, t1), t2) == Unexpired(store, t2)
    ensures Unexpired(Unexpired(store, t1), t1) == Unexpired(store, t1)
  {
  }

  /** A sweep never changes what a later lookup returns: sweeping and then
      looking up gives the same session, and the same store as looking up and
      then sweeping. */
  lemma SweepInvisibleToLookup(store: Sessions, cats: seq<Category>, id: string, t1: int, t2: int, k: int)
    requires 0 <= k < |cats|
    requires t1 <= t2
    ensures GetSession(Unexpired(store, t1), cats, id, t2, k).1 == GetSession(store, cats, id, t2, k).1
    ensures GetSession(Unexpired(store, t1), cats, id, t2, k).0 == Unexpired(GetSession(store, cats, id, t2, k).0, t1)
  {
  }

  /** Ids created at start-up carry this prefix. */
  const PreloadedPrefix: string := "preloaded-"

  /** A key that can be handed to a visitor without a cookie: a preloaded id
      whose session expires strictly after `now`. */
  predicate Assignable(store: Sessions, id: string, now: int) {
    id in store && HasPrefix(id, PreloadedPrefix) && store[id].expiresAt > now
  }

  /** The first assignable key met when visiting the keys in `order`, or ""
      when there is none. */
  function FirstAssignable(store: Sessions, now: int, order: seq<string>): (id: string)
    ensures id != "" ==> Assignable(store, id, now)
    ensures id != "" ==> exists j :: 0 <= j < |order| && order[j] == id &&
                          forall i :: 0 <= i < j ==> !Assignable(store, order[i], now)
    ensures id == "" ==> forall i :: 0 <= i < |order| ==> !Assignable(store, order[i], now)
    decreases |order|
  {
    if order == [] then ""
    else if Assignable(store, order[0], now) then order[0]
    else
      var id := FirstAssignable(store, now, order[1..]);
      if id != "" then
        ghost var j :| 0 <= j < |order[1..]| && order[1..][j] == id &&
                       forall i :: 0 <= i < j ==> !Assignable(store, order[1..][i], now);
        assert order[j + 1] == id;
        id
      else
        id
  }

  /** The preloaded id handed to a visitor without a cookie, where `order` is
      the order in which Go happens to iterate the map's keys: "" exactly when
      no key is assignable, otherwise an assignable key. */
  function AssignPreloadedSessionId(store: Sessions, now: int, order: seq<string>): (id: string)
    requires forall key :: key in store ==> key in order
    requires forall i :: 0 <= i < |order| ==> order[i] in store
    ensures id == "" <==> forall key :: key in store ==> !Assignable(store, key, now)
    ensures id != "" ==> Assignable(store, id, now)
  {
    FirstAssignable(store, now, order)
  }

  /** The id of the `i`-th preloaded session: "preloaded-1", "preloaded-2", ... */
  function PreloadedId(i: nat): string {
    PreloadedPrefix + NatToString(i)
  }

  /** Preloaded ids for different numbers are different keys. */
  lemma PreloadedIdInjective(i: nat, j: nat)
    ensures PreloadedId(i) == PreloadedId(j) ==> i == j
  {
    if PreloadedId(i) == PreloadedId(j) {
      var n := |PreloadedPrefix|;
      assert NatToString(i) == PreloadedId(i)[n..] == PreloadedId(j)[n..] == NatToString(j);
      NatToStringInjective(i, j);
    }
  }

  /** The ids "preloaded-1" through "preloaded-m". */
  function PreloadedIds(m: nat): set<string> {
    set i | 1 <= i <= m :: PreloadedId(i)
  }

  /** Going from `m` to `m + 1` ids adds one id not among the first `m`. */
  lemma PreloadedIdsGrow(m: nat)
    ensures PreloadedIds(m + 1) == PreloadedIds(m) + {PreloadedId(m + 1)}
    ensures forall j :: 1 <= j <= m ==> PreloadedId(j) != PreloadedId(m + 1)
  {
    forall j | 1 <= j <= m
      ensures PreloadedId(j) != PreloadedId(m + 1)
    {
      PreloadedIdInjective(j, m + 1);
    }
  }

  /** There are exactly `m` of them. */
  lemma {:induction false} PreloadedIdsCount(m: nat)
    ensures |PreloadedIds(m)| == m
  {
    if m > 0 {
      PreloadedIdsCount(m - 1);
      PreloadedIdsGrow(m - 1);
    }
  }

  /** Every preloaded id carries the preloaded prefix. */
  lemma PreloadedIdHasPrefix(i: nat)
    ensures HasPrefix(PreloadedId(i), PreloadedPrefix)
  {
  }

  /** `perm` reorders the indices 0 .. n-1. */
  predicate IsPermutation(perm: seq<int>, n: nat) {
    && |perm| == n
    && (forall i :: 0 <= i < n ==> 0 <= perm[i] < n)
    && (forall i, j :: 0 <= i < j < n ==> perm[i] != perm[j])
  }

  /** The number of sessions preloading creates: `count` capped by the
      number of categories, and none for a negative `count`. */
  function PreloadCount(count: int, n: nat): (m: nat)
    ensures m <= n
    ensures count >= 0 ==> m <= count
    ensures count <= 0 ==> m == 0
    ensures m == n || m == count || (count < 0 && m == 0)
  {
    if count <= 0 then 0 else if count < n then count else n
  }

  /** `r` is `store` with "preloaded-1" to "preloaded-i" set to new sessions
      from the first `i` categories of `shuffled`. */
  ghost predicate PreloadedUpTo(r: Sessions, store: Sessions, shuffled: seq<Category>, i: nat, now: int)
    requires i <= |shuffled|
  {
    && r.Keys == store.Keys + PreloadedIds(i)
    && (forall j :: 1 <= j <= i ==> r[PreloadedId(j)] == NewSession(shuffled[j - 1], now))
    && (forall id :: id in store && id !in PreloadedIds(i) ==> r[id] == store[id])
  }

  /** Storing the next preloaded session extends the invariant by one. */
  lemma PreloadStep(r: Sessions, store: Sessions, shuffled: seq<Category>, i: nat, now: int)
    requires i < |shuffled|
    requires PreloadedUpTo(r, store, shuffled, i, now)
    ensures PreloadedUpTo(r[PreloadedId(i + 1) := NewSession(shuffled[i], now)], store, shuffled, i + 1, now)
  {
    PreloadedIdsGrow(i);
    var next := r[PreloadedId(i + 1) := NewSession(shuffled[i], now)];
    assert next.Keys == store.Keys + PreloadedIds(i + 1);
    forall j | 1 <= j <= i + 1
      ensures next[PreloadedId(j)] == NewSession(shuffled[j - 1], now)
    {
      if j <= i {
        assert PreloadedId(j) != PreloadedId(i + 1);
      }
    }
    forall id | id in store && id !in PreloadedIds(i + 1)
      ensures next[id] == store[id]
    {
      assert id !in PreloadedIds(i);
    }
  }

  /** Start-up preloading: shuffle the categories by `perm`, then store under
      "preloaded-i" a new session from the i-th shuffled category, for i from
      1 up to PreloadCount(count, |cats|). Entries under other ids are kept.
      The shuffled list is returned, as the Go code keeps it for later lookups. */
  method PreloadSessions(store: Sessions, cats: seq<Category>, perm: seq<int>, count: int, now: int)
    returns (r: Sessions, shuffled: seq<Category>)
    requires IsPermutation(perm, |cats|)
    ensures |shuffled| == |cats|
    ensures forall i :: 0 <= i < |cats| ==> shuffled[i] == cats[perm[i]]
    ensures r.Keys == store.Keys + PreloadedIds(PreloadCount(count, |cats|))
    ensures forall i :: 1 <= i <= PreloadCount(count, |cats|) ==>
              r[PreloadedId(i)] == NewSession(shuffled[i - 1], now)
    ensures forall id :: id in store && id !in PreloadedIds(PreloadCount(count, |cats|)) ==> r[id] == store[id]
  {
    shuffled := seq(|cats|, i requires 0 <= i < |cats| => cats[perm[i]]);
    r := store;
    var i := 0;
    assert PreloadedIds(0) == {};
    while i < count && i < |shuffled|
      invariant 0 <= i <= PreloadCount(count, |cats|)
      invariant PreloadedUpTo(r, store, shuffled, i, now)
    {
      PreloadStep(r, store, shuffled, i, now);
      r := r[PreloadedId(i + 1) := NewSession(shuffled[i], now)];
      i := i + 1;
    }
  }

  /** A sweep before `bound` keeps every entry that expires no earlier than
      `bound`, with its expiry. */
  lemma SweepKeepsLive(store: Sessions, now: int, key: string, bound: int)
    requires key in store && store[key].expiresAt >= bound
    requires now < bound
    ensures key in Unexpired(store, now) && Unexpired(store, now)[key].expiresAt >= bound
  {
  }

  /** A visitor arriving less than one lifetime after "preloaded-i" was
      stored, while that entry still expires no earlier than one lifetime
      after its preloading, is handed some preloaded id. */
  lemma PreloadedSessionIsAssigned(store: Sessions, i: nat, loadedAt: int, now: int, order: seq<string>)
    requires forall key :: key in store ==> key in order
    requires forall j :: 0 <= j < |order| ==> order[j] in store
    requires PreloadedId(i) in store && store[PreloadedId(i)].expiresAt >= loadedAt + SessionLifetime
    requires now < loadedAt + SessionLifetime
    ensures AssignPreloadedSessionId(store, now, order) != ""
  {
    PreloadedIdHasPrefix(i);
  }
}

/**
 * `findUser`: sample a random fid, look it up, and retry. The loop guard as
 * written, `!user || i < MAX_USER_RETRY`, keeps going until at least
 * MAX_USER_RETRY lookups are done AND the last one hit; the sentinel after the
 * loop is dead code and a directory that never answers makes it spin forever.
 * `FindUser` models that guard; `FindCandidate` models the evidently intended
 * `!user && i < MAX_USER_RETRY`, specified by `Search`.
 *
 * Randomness and the network are oracles: `sample(i)` is the fid drawn on the
 * i-th attempt and `dir(id)` is the directory's answer for `id`.
 */
module Finder {
  import opened Wrappers
  import opened Profiles

  const MAX_FID := 326948
  const MAX_USER_RETRY := 5

  /** A fid `Math.ceil(Math.random() * MAX_FID)` can produce. */
  type FidSample = x: int | 0 <= x <= MAX_FID

  /** The placeholder returned when no candidate is found. */
  const SENTINEL := User(0, "https://picsum.photos/id/237/200/400.jpg", "invalid", "invalid")

  /** `findRandomUser` on attempt `i`. */
  function Attempt(sample: nat -> FidSample, dir: int -> Response, i: nat): Option<User>
  {
    FindUserById(dir(sample(i)))
  }

  // ---------------------------------------------------------------------------
  // The loop as written

  /** The loop's `user` after `n` iterations. */
  function UserAfter(sample: nat -> FidSample, dir: int -> Response, n: nat): Option<User>
  {
    if n == 0 then None else Attempt(sample, dir, n - 1)
  }

  /** The guard as written: `!user || i < MAX_USER_RETRY`. */
  predicate KeepsLooking(user: Option<User>, i: nat)
  {
    user.None? || i < MAX_USER_RETRY
  }

  /** The loop leaves after `n` iterations exactly when `n` is at least
      MAX_USER_RETRY and the `n`-th lookup hit. */
  lemma ExitCondition(sample: nat -> FidSample, dir: int -> Response, n: nat)
    ensures !KeepsLooking(UserAfter(sample, dir, n), n)
            <==> n >= MAX_USER_RETRY && Attempt(sample, dir, n - 1).Some?
  {
  }

  /** If every lookup misses, the guard holds after any number of iterations:
      the loop as written never terminates. */
  lemma NeverExitsWhenAllMiss(sample: nat -> FidSample, dir: int -> Response)
    requires forall j: nat :: Attempt(sample, dir, j).None?
    ensures forall n: nat :: KeepsLooking(UserAfter(sample, dir, n), n)
  {
  }

  /** Even when the very first lookup hits, the loop as written goes on; with a
      directory that always answers it stops after exactly MAX_USER_RETRY lookups. */
  lemma FirstHitDoesNotStop(sample: nat -> FidSample, dir: int -> Response)
    requires forall j: nat :: Attempt(sample, dir, j).Some?
    ensures forall n: nat :: n < MAX_USER_RETRY ==> KeepsLooking(UserAfter(sample, dir, n), n)
    ensures !KeepsLooking(UserAfter(sample, dir, MAX_USER_RETRY), MAX_USER_RETRY)
  {
  }

  /** `findUser` as written. It terminates only when some lookup from the
      MAX_USER_RETRY-th on hits; it then returns the first such hit, after at
      least MAX_USER_RETRY lookups, and never the sentinel. */
  method FindUser(sample: nat -> FidSample, dir: int -> Response) returns (user: User, lookups: nat)
    requires exists k: nat :: k >= MAX_USER_RETRY - 1 && Attempt(sample, dir, k).Some?
    ensures lookups >= MAX_USER_RETRY
    ensures Attempt(sample, dir, lookups - 1) == Some(user)
    ensures forall j: nat :: MAX_USER_RETRY - 1 <= j < lookups - 1 ==> Attempt(sample, dir, j).None?
  {
    ghost var k: nat :| k >= MAX_USER_RETRY - 1 && Attempt(sample, dir, k).Some?;
    var current: Option<User> := None;
    var i: nat := 0;
    while KeepsLooking(current, i)
      invariant i <= k + 1
      invariant current == UserAfter(sample, dir, i)
      invariant forall j: nat :: MAX_USER_RETRY - 1 <= j < i - 1 ==> Attempt(sample, dir, j).None?
      decreases k + 1 - i
    {
      current := Attempt(sample, dir, i);
      i := i + 1;
    }
    if current.Some? {
      user := current.value;
    } else {
      // the sentinel: the guard only lets the loop end with a user
      assert false;
      user := SENTINEL;
    }
    lookups := i;
  }

  // ---------------------------------------------------------------------------
  // The loop as intended

  /** What the intended loop returns: the chosen user and the number of lookups. */
  datatype Candidate = Candidate(user: User, lookups: nat)

  /** The intended search from attempt `i` on: the first hit among the attempts
      below MAX_USER_RETRY, or the sentinel once they all missed. */
  function Search(sample: nat -> FidSample, dir: int -> Response, i: nat): (r: Candidate)
    requires i < MAX_USER_RETRY
    ensures i < r.lookups <= MAX_USER_RETRY
    ensures forall j: nat :: i <= j < r.lookups - 1 ==> Attempt(sample, dir, j).None?
    ensures Attempt(sample, dir, r.lookups - 1).Some? ==> Some(r.user) == Attempt(sample, dir, r.lookups - 1)
    ensures Attempt(sample, dir, r.lookups - 1).None? ==> r.lookups == MAX_USER_RETRY && r.user == SENTINEL
    decreases MAX_USER_RETRY - i
  {
    match Attempt(sample, dir, i)
    case Some(u) => Candidate(u, i + 1)
    case None =>
      if i + 1 < MAX_USER_RETRY then Search(sample, dir, i + 1) else Candidate(SENTINEL, MAX_USER_RETRY)
  }

  /** When every attempt misses, the search gives the sentinel after exactly MAX_USER_RETRY lookups. */
  lemma SearchAllMiss(sample: nat -> FidSample, dir: int -> Response)
    requires forall j: nat :: j < MAX_USER_RETRY ==> Attempt(sample, dir, j).None?
    ensures Search(sample, dir, 0) == Candidate(SENTINEL, MAX_USER_RETRY)
  {
  }

  /** The search stops at the first hit. */
  lemma SearchStopsAtFirstHit(sample: nat -> FidSample, dir: int -> Response, j: nat)
    requires j < MAX_USER_RETRY && Attempt(sample, dir, j).Some?
    requires forall m: nat :: m < j ==> Attempt(sample, dir, m).None?
    ensures Search(sample, dir, 0) == Candidate(Attempt(sample, dir, j).value, j + 1)
  {
  }

  /** A search result is displayable, and it is the sentinel or the user the
      directory returned on the last attempt. */
  lemma SearchResultDisplayable(sample: nat -> FidSample, dir: int -> Response)
    ensures var r := Search(sample, dir, 0);
            Displayable(r.user) && (r.user == SENTINEL || Some(r.user) == Attempt(sample, dir, r.lookups - 1))
  {
  }

  /** `findUser` with the intended guard `!user && i < MAX_USER_RETRY`. */
  method FindCandidate(sample: nat -> FidSample, dir: int -> Response) returns (user: User, lookups: nat)
    ensures Candidate(user, lookups) == Search(sample, dir, 0)
  {
    var current: Option<User> := None;
    var i: nat := 0;
    while current.None? && i < MAX_USER_RETRY
      invariant i <= MAX_USER_RETRY
      invariant current.None? && i < MAX_USER_RETRY ==> Search(sample, dir, i) == Search(sample, dir, 0)
      invariant current.Some? ==> Search(sample, dir, 0) == Candidate(current.value, i)
      invariant current.None? && i == MAX_USER_RETRY ==> Search(sample, dir, 0) == Candidate(SENTINEL, i)
    {
      current := Attempt(sample, dir, i);
      i := i + 1;
    }
    if current.Some? {
      user := current.value;
    } else {
      user := SENTINEL;
    }
    lookups := i;
  }
}

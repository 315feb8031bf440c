/**
 The sliding-window rate limiter (task-1/main.py): every user owns a queue of
 admission timestamps, oldest first. A request is admitted when fewer than
 `maxRequests` timestamps remain after the expired ones (those at or before
 `now - windowSize`) have been popped from the head of the queue.

 The wall clock is replaced by an explicit `now` argument, and time is `real`.
 */
module SlidingWindow {

  type UserId = string
  type Time = real

  /** The per-user store: a user id maps to that user's admission timestamps. */
  type Store = map<UserId, seq<Time>>

  predicate Sorted(q: seq<Time>) {
    forall i, j :: 0 <= i <= j < |q| ==> q[i] <= q[j]
  }

  /** `r` is what is left of `q` after removing some elements from its head. */
  predicate IsSuffix(r: seq<Time>, q: seq<Time>) {
    |r| <= |q| && r == q[|q| - |r|..]
  }

  predicate AllAtMost(q: seq<Time>, c: Time) {
    forall i :: 0 <= i < |q| ==> q[i] <= c
  }

  predicate AllAbove(q: seq<Time>, c: Time) {
    forall i :: 0 <= i < |q| ==> q[i] > c
  }

  /** The queue stored for `u`; a user without an entry has an empty queue. */
  function Lookup(m: Store, u: UserId): seq<Time> {
    if u in m then m[u] else []
  }

  /**
   What the cleanup loop leaves of a queue: timestamps are popped from the
   head as long as the head is at or before `cutoff`. Only the head is ever
   inspected, so the result is a suffix of the queue (see `DropExpiredSplit`)
   whose head, if any, is live.
   */
  function DropExpired(q: seq<Time>, cutoff: Time): (r: seq<Time>)
    ensures |r| <= |q|
    ensures r == [] || r[0] > cutoff
    decreases |q|
  {
    if q != [] && q[0] <= cutoff then DropExpired(q[1..], cutoff) else q
  }

  /** The timestamps cleanup pops from the head of `q`. */
  function Popped(q: seq<Time>, cutoff: Time): seq<Time> {
    q[..|q| - |DropExpired(q, cutoff)|]
  }

  /**
   Cleanup splits a queue in two: the popped prefix, every element of which
   is expired, followed by the retained suffix.
   */
  lemma {:induction false} DropExpiredSplit(q: seq<Time>, cutoff: Time)
    ensures IsSuffix(DropExpired(q, cutoff), q)
    ensures Popped(q, cutoff) + DropExpired(q, cutoff) == q
    ensures AllAtMost(Popped(q, cutoff), cutoff)
    decreases |q|
  {
    if q != [] && q[0] <= cutoff {
      DropExpiredSplit(q[1..], cutoff);
      var r := DropExpired(q[1..], cutoff);
      assert DropExpired(q, cutoff) == r;
      assert q[..|q| - |r|] == [q[0]] + q[1..][..|q[1..]| - |r|];
    }
  }

  /** The timestamps of `q` that are still live at `cutoff`, kept in order: the reference meaning of "not expired". */
  function Live(q: seq<Time>, cutoff: Time): seq<Time>
    decreases |q|
  {
    if q == [] then []
    else (if q[0] > cutoff then [q[0]] else []) + Live(q[1..], cutoff)
  }

  /** The store after `_cleanup_window(u, ...)`: `u`'s queue trimmed, and its entry deleted once empty. */
  function Cleaned(m: Store, u: UserId, cutoff: Time): (r: Store)
    ensures Lookup(r, u) == DropExpired(Lookup(m, u), cutoff)
    ensures u in r <==> Lookup(r, u) != []
    ensures forall v :: v != u ==> (v in r <==> v in m)
    ensures forall v :: v != u && v in m ==> r[v] == m[v]
  {
    if u in m then
      var q := DropExpired(m[u], cutoff);
      if q == [] then m - {u} else m[u := q]
    else
      m
  }

  /**
   The value `time_until_next_allowed` reports for a queue that has just been
   cleaned: zero for an empty queue, otherwise the time until the OLDEST
   retained timestamp leaves the window, clamped at zero.
   */
  function WaitTime(q: seq<Time>, now: Time, windowSize: Time): (w: Time)
    ensures w >= 0.0
    ensures q == [] ==> w == 0.0
    ensures q != [] && q[0] > now - windowSize ==> w > 0.0
    ensures w > 0.0 ==> now + w == q[0] + windowSize
  {
    if q == [] then 0.0
    else
      var d := windowSize - (now - q[0]);
      if 0.0 >= d then 0.0 else d
  }

  /**
   The `while ... popleft()` loop of `_cleanup_window`: pops timestamps from
   the head of the deque while the head is at or before `cutoff`.
   */
  method PopExpired(q0: seq<Time>, cutoff: Time) returns (q: seq<Time>)
    ensures q == DropExpired(q0, cutoff)
  {
    q := q0;
    while q != [] && q[0] <= cutoff
      invariant DropExpired(q, cutoff) == DropExpired(q0, cutoff)
      decreases |q|
    {
      q := q[1..];
    }
  }

  // ---------------------------------------------------------------------
  // Properties of the cleanup of one queue
  // ---------------------------------------------------------------------

  /** On a sorted queue, cleanup leaves a sorted queue in which no timestamp is expired. */
  lemma DropExpiredSorted(q: seq<Time>, cutoff: Time)
    requires Sorted(q)
    ensures Sorted(DropExpired(q, cutoff))
    ensures AllAbove(DropExpired(q, cutoff), cutoff)
  {
    var r := DropExpired(q, cutoff);
    var k := |q| - |r|;
    DropExpiredSplit(q, cutoff);
    assert forall i :: 0 <= i < |r| ==> r[i] == q[k + i];
  }

  /** On a sorted queue, popping expired timestamps from the head keeps exactly the live ones. */
  lemma {:induction false} DropExpiredIsLive(q: seq<Time>, cutoff: Time)
    requires Sorted(q)
    ensures DropExpired(q, cutoff) == Live(q, cutoff)
    decreases |q|
  {
    if q == [] {
    } else if q[0] <= cutoff {
      DropExpiredIsLive(q[1..], cutoff);
    } else {
      AllLive(q, cutoff);
    }
  }

  /** A queue whose every element is live is its own live part. */
  lemma {:induction false} AllLive(q: seq<Time>, cutoff: Time)
    requires AllAbove(q, cutoff)
    ensures Live(q, cutoff) == q
    decreases |q|
  {
    if q != [] {
      AllLive(q[1..], cutoff);
    }
  }

  /** Only the head is inspected: on an unsorted queue an expired timestamp behind a live head survives cleanup. */
  lemma HeadOnlyCleanup()
    ensures DropExpired([5.0, 1.0], 2.0) == [5.0, 1.0]
    ensures Live([5.0, 1.0], 2.0) == [5.0]
  {
    assert [5.0, 1.0][1..] == [1.0];
    assert [1.0][1..] == [];
  }

  /**
   Cleanup is idempotent and monotonic: cleaning at `c1` and then at a later
   cutoff `c2` is the same as cleaning at `c2` alone; with `c1 == c2` the
   second cleanup changes nothing.
   */
  lemma {:induction false} DropExpiredMonotone(q: seq<Time>, c1: Time, c2: Time)
    requires c1 <= c2
    ensures DropExpired(DropExpired(q, c1), c2) == DropExpired(q, c2)
    decreases |q|
  {
    if q != [] && q[0] <= c1 {
      DropExpiredMonotone(q[1..], c1, c2);
    }
  }

  /** The live part of a concatenation is the concatenation of the live parts. */
  lemma {:induction false} LiveAppend(a: seq<Time>, b: seq<Time>, cutoff: Time)
    ensures Live(a + b, cutoff) == Live(a, cutoff) + Live(b, cutoff)
    decreases |a|
  {
    if a == [] {
      assert a + b == b;
    } else {
      assert (a + b)[1..] == a[1..] + b;
      LiveAppend(a[1..], b, cutoff);
    }
  }

  /** A queue of expired timestamps has no live part; in general the live part is no longer than the queue. */
  lemma {:induction false} LiveBounds(q: seq<Time>, cutoff: Time)
    ensures |Live(q, cutoff)| <= |q|
    ensures AllAtMost(q, cutoff) ==> Live(q, cutoff) == []
    decreases |q|
  {
    if q != [] {
      LiveBounds(q[1..], cutoff);
    }
  }

  // ---------------------------------------------------------------------
  // Properties of the wait time
  // ---------------------------------------------------------------------

  /**
   After cleanup the reported wait is zero exactly when nothing is retained
   for `u`; so with `maxRequests == 1` it is zero exactly when a request
   would be admitted, and with any `maxRequests >= 1` a zero wait means
   admission.
   */
  lemma WaitZeroIffNothingRetained(m: Store, u: UserId, now: Time, windowSize: Time, maxRequests: int)
    ensures var r := DropExpired(Lookup(m, u), now - windowSize);
            WaitTime(r, now, windowSize) == 0.0 <==> r == []
    ensures var w := WaitTime(DropExpired(Lookup(m, u), now - windowSize), now, windowSize);
            maxRequests == 1 ==> (w == 0.0 <==> Admits(m, u, now, windowSize, maxRequests))
    ensures var w := WaitTime(DropExpired(Lookup(m, u), now - windowSize), now, windowSize);
            maxRequests >= 1 && w == 0.0 ==> Admits(m, u, now, windowSize, maxRequests)
  {
  }

  /**
   With one slot per window the reported wait is exact: when `u` has at most
   one stored timestamp, a request at a time `t >= now` is admitted exactly
   when `t` is at least `now` plus the wait reported at `now` (expiry is
   inclusive, so the boundary instant itself is admitted).
   */
  lemma {:induction false} SingleSlotWaitIsExact(m: Store, u: UserId, now: Time, windowSize: Time, t: Time)
    requires |Lookup(m, u)| <= 1
    requires now <= t
    ensures var w := WaitTime(DropExpired(Lookup(m, u), now - windowSize), now, windowSize);
            Admits(m, u, t, windowSize, 1) <==> t >= now + w
  {
    var q := Lookup(m, u);
    if q != [] {
      assert q[1..] == [];
    }
  }

  // ---------------------------------------------------------------------
  // The store-wide invariants and how each step keeps them
  // ---------------------------------------------------------------------

  /** No user maps to an empty queue, and no queue holds more than `maxRequests` timestamps. */
  predicate Bounded(m: Store, maxRequests: int) {
    forall u :: u in m ==> 0 < |m[u]| <= maxRequests
  }

  /** Every stored queue is in non-decreasing order and lies at or before `clock`. */
  predicate Ordered(m: Store, clock: Time) {
    forall u :: u in m ==> Sorted(m[u]) && AllAtMost(m[u], clock)
  }

  /** The store after `record_message` appends `now` to `u`'s queue. */
  function Appended(m: Store, u: UserId, now: Time): (r: Store)
    ensures Lookup(r, u) == Lookup(m, u) + [now]
    ensures u in r
    ensures forall v :: v != u ==> (v in r <==> v in m) && Lookup(r, v) == Lookup(m, v)
  {
    m[u := Lookup(m, u) + [now]]
  }

  /** Cleanup keeps the store free of empty entries and within capacity. */
  lemma CleanedBounded(m: Store, u: UserId, cutoff: Time, maxRequests: int)
    requires Bounded(m, maxRequests)
    ensures Bounded(Cleaned(m, u, cutoff), maxRequests)
  {
  }

  /** Appending to a queue that had room keeps the store free of empty entries and within capacity. */
  lemma AppendedBounded(m: Store, u: UserId, now: Time, maxRequests: int)
    requires Bounded(m, maxRequests)
    requires |Lookup(m, u)| < maxRequests
    ensures Bounded(Appended(m, u, now), maxRequests)
  {
  }

  /** Cleanup keeps an ordered store ordered, and then leaves no expired timestamp in the cleaned queue. */
  lemma CleanedOrdered(m: Store, u: UserId, cutoff: Time, clock: Time)
    requires Ordered(m, clock)
    ensures Ordered(Cleaned(m, u, cutoff), clock)
    ensures AllAbove(Lookup(Cleaned(m, u, cutoff), u), cutoff)
  {
    var q := Lookup(m, u);
    var r := DropExpired(q, cutoff);
    assert Sorted(q) && AllAtMost(q, clock);
    DropExpiredSorted(q, cutoff);
    DropExpiredSplit(q, cutoff);
    AllAtMostSuffix(q, r, clock);
  }

  /** A later reading of the clock keeps an ordered store ordered. */
  lemma OrderedLater(m: Store, clock: Time, clock': Time)
    requires Ordered(m, clock) && clock <= clock'
    ensures Ordered(m, clock')
  {
    forall u | u in m
      ensures Sorted(m[u]) && AllAtMost(m[u], clock')
    {
      assert AllAtMost(m[u], clock);
    }
  }

  /** Appending a timestamp no earlier than every stored one keeps the store ordered. */
  lemma AppendedOrdered(m: Store, u: UserId, now: Time, clock: Time)
    requires Ordered(m, clock) && clock <= now
    ensures Ordered(Appended(m, u, now), now)
  {
    OrderedLater(m, clock, now);
    var q := Lookup(m, u);
    assert Sorted(q) && AllAtMost(q, now);
    assert Sorted(q + [now]);
  }

  /** A bound that holds for every element also holds when raised. */
  lemma AllAtMostWeaken(q: seq<Time>, c: Time, c': Time)
    requires AllAtMost(q, c) && c <= c'
    ensures AllAtMost(q, c')
  {
  }

  /** A bound that holds for every element of a queue holds for every element of its suffixes. */
  lemma AllAtMostSuffix(q: seq<Time>, r: seq<Time>, c: Time)
    requires AllAtMost(q, c) && IsSuffix(r, q)
    ensures AllAtMost(r, c)
  {
    assert forall i :: 0 <= i < |r| ==> r[i] == q[|q| - |r| + i];
  }

  // ---------------------------------------------------------------------
  // No admission is forgotten: capacity over the whole history
  //
  // The limiter keeps only the retained timestamps. To speak about every
  // admission ever made, a run of calls is replayed on values from an empty
  // limiter, alongside the store: for each user, the timestamps cleanup has
  // popped so far, and every timestamp admitted so far.
  // ---------------------------------------------------------------------

  /** One call into the limiter: `record_message` when `records` holds, otherwise a call that only cleans up. */
  datatype Call = Call(user: UserId, now: Time, records: bool)

  /** The store after some calls, the timestamps popped so far and the timestamps admitted so far, per user. */
  datatype RunState = RunState(store: Store, popped: Store, admitted: Store)

  /** Every timestamp recorded in `e` is at or before `c`. */
  predicate AllExpired(e: Store, c: Time) {
    forall u :: u in e ==> AllAtMost(e[u], c)
  }

  /** The popped timestamps after cleanup of `u`'s queue in `m` has moved its expired head into `e`. */
  function Expire(e: Store, m: Store, u: UserId, cutoff: Time): Store {
    if u in m then e[u := Lookup(e, u) + Popped(m[u], cutoff)] else e
  }

  /** The history of user `u`: the popped timestamps followed by the retained ones. */
  function History(m: Store, e: Store, u: UserId): seq<Time> {
    Lookup(e, u) + Lookup(m, u)
  }

  /** Whether a `record_message` call by `u` at `now` would be admitted by a limiter whose store is `m`. */
  predicate Admits(m: Store, u: UserId, now: Time, windowSize: Time, maxRequests: int) {
    |DropExpired(Lookup(m, u), now - windowSize)| < maxRequests
  }

  /** The store after the call `c`: cleanup of the caller's queue, then, for an admitted `record_message`, the append. */
  function AfterCall(m: Store, c: Call, windowSize: Time, maxRequests: int): Store {
    var r := Cleaned(m, c.user, c.now - windowSize);
    if c.records && Admits(m, c.user, c.now, windowSize, maxRequests) then Appended(r, c.user, c.now) else r
  }

  /**
   A call changes only the caller's queue: it keeps the live part left by
   cleanup and, for an admitted `record_message`, adds `now` at the tail.
   */
  lemma AfterCallEffect(m: Store, c: Call, windowSize: Time, maxRequests: int, v: UserId)
    ensures Lookup(AfterCall(m, c, windowSize, maxRequests), v) ==
              if v != c.user then Lookup(m, v)
              else DropExpired(Lookup(m, v), c.now - windowSize) +
                   (if c.records && Admits(m, v, c.now, windowSize, maxRequests) then [c.now] else [])
  {
  }

  /** One call, with the popped and the admitted timestamps logged. */
  function Step(s: RunState, c: Call, windowSize: Time, maxRequests: int): RunState {
    RunState(
      AfterCall(s.store, c, windowSize, maxRequests),
      Expire(s.popped, s.store, c.user, c.now - windowSize),
      if c.records && Admits(s.store, c.user, c.now, windowSize, maxRequests) then Appended(s.admitted, c.user, c.now) else s.admitted)
  }

  /** The state after the calls `calls`, made in order on a fresh limiter. */
  function Run(calls: seq<Call>, windowSize: Time, maxRequests: int): RunState
    decreases |calls|
  {
    if calls == [] then RunState(map[], map[], map[])
    else Step(Run(calls[..|calls| - 1], windowSize, maxRequests), calls[|calls| - 1], windowSize, maxRequests)
  }

  /**
   The invariant of a run observed at an instant `t` no earlier than any
   call: the store is bounded, every popped timestamp is expired at `t`, and
   each user's popped and retained timestamps are exactly that user's
   admissions.
   */
  ghost predicate Accounted(s: RunState, windowSize: Time, maxRequests: int, t: Time) {
    && Bounded(s.store, maxRequests)
    && AllExpired(s.popped, t - windowSize)
    && forall v :: History(s.store, s.popped, v) == Lookup(s.admitted, v)
  }

  /**
   Cleanup forgets no admission: for every user `v`, the popped timestamps
   followed by the retained ones are the same before and after cleanup of `u`.
   */
  lemma CleanupKeepsHistory(m: Store, e: Store, u: UserId, cutoff: Time, v: UserId)
    ensures History(Cleaned(m, u, cutoff), Expire(e, m, u, cutoff), v) == History(m, e, v)
  {
    if v == u && u in m {
      var h, p, r := Lookup(e, u), Popped(m[u], cutoff), DropExpired(m[u], cutoff);
      DropExpiredSplit(m[u], cutoff);
      assert (h + p) + r == h + (p + r);
    }
  }

  /** Cleanup at a cutoff no later than `c` keeps every popped timestamp expired at `c`. */
  lemma CleanupKeepsExpired(m: Store, e: Store, u: UserId, cutoff: Time, c: Time)
    requires AllExpired(e, c) && cutoff <= c
    ensures AllExpired(Expire(e, m, u, cutoff), c)
  {
    if u in m {
      DropExpiredSplit(m[u], cutoff);
      AllAtMostWeaken(Popped(m[u], cutoff), cutoff, c);
      assert AllAtMost(Lookup(e, u), c);
    }
  }

  /** An admission extends the history of its own user by `now` and no other history. */
  lemma RecordExtendsHistory(m: Store, e: Store, u: UserId, now: Time, v: UserId)
    ensures History(Appended(m, u, now), e, v) == if v == u then History(m, e, v) + [now] else History(m, e, v)
  {
    if v == u {
      assert Lookup(e, u) + (Lookup(m, u) + [now]) == (Lookup(e, u) + Lookup(m, u)) + [now];
    }
  }

  /** A call extends the history of its own user by `now` when it is an admission, and leaves every other history alone. */
  lemma CallHistory(m: Store, e: Store, c: Call, windowSize: Time, maxRequests: int, v: UserId)
    ensures History(AfterCall(m, c, windowSize, maxRequests), Expire(e, m, c.user, c.now - windowSize), v) ==
              if v == c.user && c.records && Admits(m, c.user, c.now, windowSize, maxRequests)
              then History(m, e, v) + [c.now]
              else History(m, e, v)
  {
    var cutoff := c.now - windowSize;
    var r := Cleaned(m, c.user, cutoff);
    CleanupKeepsHistory(m, e, c.user, cutoff, v);
    if c.records && Admits(m, c.user, c.now, windowSize, maxRequests) {
      RecordExtendsHistory(r, Expire(e, m, c.user, cutoff), c.user, c.now, v);
    }
  }

  /** `CallHistory`, stated for one step of a run. */
  lemma StepHistory(s: RunState, c: Call, windowSize: Time, maxRequests: int, v: UserId)
    ensures var s' := Step(s, c, windowSize, maxRequests);
            History(s'.store, s'.popped, v) ==
              if v == c.user && c.records && Admits(s.store, c.user, c.now, windowSize, maxRequests)
              then History(s.store, s.popped, v) + [c.now]
              else History(s.store, s.popped, v)
  {
    var s' := Step(s, c, windowSize, maxRequests);
    assert s'.store == AfterCall(s.store, c, windowSize, maxRequests);
    assert s'.popped == Expire(s.popped, s.store, c.user, c.now - windowSize);
    CallHistory(s.store, s.popped, c, windowSize, maxRequests, v);
  }

  /** Every call made no later than `t` keeps the invariant of a run observed at `t`. */
  lemma StepKeepsAccounted(s: RunState, c: Call, windowSize: Time, maxRequests: int, t: Time)
    requires Accounted(s, windowSize, maxRequests, t)
    requires c.now <= t
    ensures Accounted(Step(s, c, windowSize, maxRequests), windowSize, maxRequests, t)
  {
    var cutoff := c.now - windowSize;
    var s' := Step(s, c, windowSize, maxRequests);
    var m := Cleaned(s.store, c.user, cutoff);
    CleanedBounded(s.store, c.user, cutoff, maxRequests);
    if c.records && Admits(s.store, c.user, c.now, windowSize, maxRequests) {
      AppendedBounded(m, c.user, c.now, maxRequests);
      assert s'.store == Appended(m, c.user, c.now);
    } else {
      assert s'.store == m;
    }
    CleanupKeepsExpired(s.store, s.popped, c.user, cutoff, t - windowSize);
    assert s'.popped == Expire(s.popped, s.store, c.user, cutoff);
    forall v
      ensures History(s'.store, s'.popped, v) == Lookup(s'.admitted, v)
    {
      StepHistory(s, c, windowSize, maxRequests, v);
    }
  }

  /** Every run whose calls are all no later than `t` satisfies the invariant observed at `t`. */
  lemma {:induction false} RunAccounted(calls: seq<Call>, windowSize: Time, maxRequests: int, t: Time)
    requires forall i :: 0 <= i < |calls| ==> calls[i].now <= t
    ensures Accounted(Run(calls, windowSize, maxRequests), windowSize, maxRequests, t)
    decreases |calls|
  {
    if calls != [] {
      var init := calls[..|calls| - 1];
      RunAccounted(init, windowSize, maxRequests, t);
      StepKeepsAccounted(Run(init, windowSize, maxRequests), calls[|calls| - 1], windowSize, maxRequests, t);
    }
  }

  /**
   Capacity over the whole history: at any instant `t` no earlier than any
   call of a run, at most `maxRequests` of the timestamps ever admitted for
   `u` lie inside the window ending at `t`.
   */
  lemma WindowCapacity(calls: seq<Call>, windowSize: Time, maxRequests: int, u: UserId, t: Time)
    requires maxRequests >= 0
    requires forall i :: 0 <= i < |calls| ==> calls[i].now <= t
    ensures |Live(Lookup(Run(calls, windowSize, maxRequests).admitted, u), t - windowSize)| <= maxRequests
  {
    var s := Run(calls, windowSize, maxRequests);
    RunAccounted(calls, windowSize, maxRequests, t);
    var h, q := Lookup(s.popped, u), Lookup(s.store, u);
    assert Lookup(s.admitted, u) == h + q;
    assert AllAtMost(h, t - windowSize) by {
      if u in s.popped {
        assert AllAtMost(s.popped[u], t - windowSize);
      }
    }
    LiveCapacity(h, q, t - windowSize, maxRequests);
  }

  /** Expired timestamps followed by at most `n` others leave at most `n` live ones. */
  lemma LiveCapacity(h: seq<Time>, q: seq<Time>, cutoff: Time, n: int)
    requires AllAtMost(h, cutoff) && |q| <= n
    ensures |Live(h + q, cutoff)| <= n
  {
    LiveAppend(h, q, cutoff);
    LiveBounds(h, cutoff);
    LiveBounds(q, cutoff);
  }

  /** The calls of `calls` are made at non-decreasing times. */
  predicate Chronological(calls: seq<Call>) {
    forall i, j :: 0 <= i <= j < |calls| ==> calls[i].now <= calls[j].now
  }

  /** A run at non-decreasing times keeps every queue sorted and no later than the last call. */
  lemma {:induction false} RunOrdered(calls: seq<Call>, windowSize: Time, maxRequests: int)
    requires Chronological(calls) && calls != []
    ensures Ordered(Run(calls, windowSize, maxRequests).store, calls[|calls| - 1].now)
    decreases |calls|
  {
    var init, c := calls[..|calls| - 1], calls[|calls| - 1];
    var s := Run(init, windowSize, maxRequests);
    if init != [] {
      assert Chronological(init);
      RunOrdered(init, windowSize, maxRequests);
      OrderedLater(s.store, init[|init| - 1].now, c.now);
    }
    assert Ordered(s.store, c.now);
    var m := Cleaned(s.store, c.user, c.now - windowSize);
    CleanedOrdered(s.store, c.user, c.now - windowSize, c.now);
    AppendedOrdered(m, c.user, c.now, c.now);
  }

  /**
   When calls come at non-decreasing times, inspecting only the head is
   enough: the next call's cleanup keeps exactly the live timestamps of the
   caller's queue.
   */
  lemma CleanupIsExact(calls: seq<Call>, windowSize: Time, maxRequests: int, c: Call)
    requires Chronological(calls + [c])
    ensures var s := Run(calls, windowSize, maxRequests);
            Lookup(Cleaned(s.store, c.user, c.now - windowSize), c.user) == Live(Lookup(s.store, c.user), c.now - windowSize)
  {
    var s := Run(calls, windowSize, maxRequests);
    var q := Lookup(s.store, c.user);
    if calls != [] {
      ChronologicalInit(calls, c);
      RunOrdered(calls, windowSize, maxRequests);
      assert Sorted(q);
    }
    SortedCleanupIsExact(s.store, c.user, c.now - windowSize);
  }

  /** On a sorted queue, the cleaned queue of `u` is exactly its live part. */
  lemma SortedCleanupIsExact(m: Store, u: UserId, cutoff: Time)
    requires Sorted(Lookup(m, u))
    ensures Lookup(Cleaned(m, u, cutoff), u) == Live(Lookup(m, u), cutoff)
  {
    DropExpiredIsLive(Lookup(m, u), cutoff);
  }

  /** Dropping the last call keeps the calls chronological. */
  lemma ChronologicalInit(calls: seq<Call>, c: Call)
    requires Chronological(calls + [c])
    ensures Chronological(calls)
  {
    forall i, j | 0 <= i <= j < |calls|
      ensures calls[i].now <= calls[j].now
    {
      assert (calls + [c])[i] == calls[i] && (calls + [c])[j] == calls[j];
    }
  }

  // ---------------------------------------------------------------------
  // The limiter
  // ---------------------------------------------------------------------

  class SlidingWindowRateLimiter {
    const windowSize: Time
    const maxRequests: int
    var userRequests: Store

    /** The queue currently stored for `u`. */
    function Queue(u: UserId): seq<Time>
      reads this
    {
      Lookup(userRequests, u)
    }

    /**
     The object invariant: a positive window, room for at least one request,
     no user mapped to an empty queue and no queue longer than `maxRequests`.
     */
    ghost predicate Valid()
      reads this
    {
      windowSize > 0.0 && maxRequests >= 1 && Bounded(userRequests, maxRequests)
    }

    constructor (windowSize: Time := 10.0, maxRequests: int := 1)
      requires windowSize > 0.0 && maxRequests >= 1
      ensures Valid()
      ensures this.windowSize == windowSize && this.maxRequests == maxRequests
      ensures userRequests == map[]
    {
      this.windowSize := windowSize;
      this.maxRequests := maxRequests;
      userRequests := map[];
    }

    /**
     `_cleanup_window`: pops expired timestamps from the head of `user`'s
     queue and deletes the entry once it is empty; nothing else changes.
     */
    method CleanupWindow(user: UserId, now: Time)
      requires Valid()
      modifies this
      ensures Valid()
      ensures userRequests == Cleaned(old(userRequests), user, now - windowSize)
    {
      var m := userRequests;
      if user in m {
        var q := PopExpired(m[user], now - windowSize);
        if q == [] {
          m := m - {user};
        } else {
          m := m[user := q];
        }
      }
      CleanedBounded(userRequests, user, now - windowSize, maxRequests);
      userRequests := m;
    }

    /**
     `can_send_message`: after cleanup, admission is allowed iff fewer than
     `maxRequests` timestamps are retained for `user` (an absent user counts
     as zero).
     */
    method CanSendMessage(user: UserId, now: Time) returns (ok: bool)
      requires Valid()
      modifies this
      ensures Valid()
      ensures ok == Admits(old(userRequests), user, now, windowSize, maxRequests)
      ensures userRequests == AfterCall(old(userRequests), Call(user, now, false), windowSize, maxRequests)
    {
      CleanupWindow(user, now);
      ok := |Queue(user)| < maxRequests;
    }

    /**
     `record_message`: admits the request iff `CanSendMessage` allows it, and
     then appends `now` at the tail of `user`'s queue. A refusal changes the
     store only by the cleanup.
     */
    method RecordMessage(user: UserId, now: Time) returns (ok: bool)
      requires Valid()
      modifies this
      ensures Valid()
      ensures ok == Admits(old(userRequests), user, now, windowSize, maxRequests)
      ensures userRequests == AfterCall(old(userRequests), Call(user, now, true), windowSize, maxRequests)
    {
      ok := CanSendMessage(user, now);
      if ok {
        AppendedBounded(userRequests, user, now, maxRequests);
        // An absent user gets a fresh empty deque, which `now` is appended to.
        userRequests := userRequests[user := Lookup(userRequests, user) + [now]];
      }
    }

    /**
     `time_until_next_allowed`: after cleanup, zero when nothing is retained
     for `user`, otherwise the time until the oldest retained timestamp
     expires, never negative.
     */
    method TimeUntilNextAllowed(user: UserId, now: Time) returns (wait: Time)
      requires Valid()
      modifies this
      ensures Valid()
      ensures wait == WaitTime(DropExpired(old(Queue(user)), now - windowSize), now, windowSize)
      ensures userRequests == AfterCall(old(userRequests), Call(user, now, false), windowSize, maxRequests)
    {
      CleanupWindow(user, now);
      if user !in userRequests || userRequests[user] == [] {
        wait := 0.0;
      } else {
        var d := windowSize - (now - userRequests[user][0]);
        wait := if 0.0 >= d then 0.0 else d;
      }
    }
  }

  /**
   A concrete run with a ten-unit window and one slot: admitted at 0,
   refused at 5 with five units left to wait, admitted again at exactly 10.
   */
  method WindowScenario() returns (first: bool, second: bool, wait: Time, third: bool)
    ensures first && !second && wait == 5.0 && third
  {
    var limiter := new SlidingWindowRateLimiter(10.0, 1);
    first := limiter.RecordMessage("1", 0.0);
    second := limiter.RecordMessage("1", 5.0);
    wait := limiter.TimeUntilNextAllowed("1", 5.0);
    third := limiter.RecordMessage("1", 10.0);
  }
}

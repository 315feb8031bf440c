/**
 The throttling rate limiter (task-2/main.py): every user has the time of
 their last admitted message, and a message is admitted when at least
 `minInterval` has passed since then. A user never admitted counts as last
 admitted at time 0.

 The wall clock is replaced by an explicit `now` argument, and time is `real`.
 */
module Throttling {

  type UserId = string
  type Time = real

  /** The per-user store: a user id maps to the time of that user's last admitted message. */
  type LastTimes = map<UserId, Time>

  /** The time of `u`'s last admitted message; a user without an entry counts as admitted at 0. */
  function Last(m: LastTimes, u: UserId): Time {
    if u in m then m[u] else 0.0
  }

  /** The test of `can_send_message`: at least `minInterval` has passed since `u`'s last admitted message. */
  predicate Allows(m: LastTimes, u: UserId, now: Time, minInterval: Time) {
    now - Last(m, u) >= minInterval
  }

  /**
   The value of `time_until_next_allowed`: the time still missing to
   `minInterval`, clamped at zero. It is zero exactly when a message would be
   admitted now, and otherwise ends exactly when the interval does.
   */
  function Wait(m: LastTimes, u: UserId, now: Time, minInterval: Time): (w: Time)
    ensures w >= 0.0
    ensures w == 0.0 <==> Allows(m, u, now, minInterval)
    ensures w > 0.0 ==> now + w == Last(m, u) + minInterval
  {
    var d := minInterval - (now - Last(m, u));
    if 0.0 >= d then 0.0 else d
  }

  /**
   The store after `record_message`: an admitted message becomes `u`'s last
   one, a refused one changes nothing. No other user's entry changes and no
   entry is ever deleted.
   */
  function Recorded(m: LastTimes, u: UserId, now: Time, minInterval: Time): (r: LastTimes)
    ensures Allows(m, u, now, minInterval) ==> u in r && Last(r, u) == now
    ensures !Allows(m, u, now, minInterval) ==> r == m
    ensures forall v :: v != u ==> (v in r <==> v in m) && Last(r, v) == Last(m, v)
    ensures m.Keys <= r.Keys
  {
    if Allows(m, u, now, minInterval) then m[u := now] else m
  }

  // ---------------------------------------------------------------------
  // Properties of one call
  // ---------------------------------------------------------------------

  /**
   A user never admitted before is admitted exactly when `now` is at least
   `minInterval`: the first message is not unconditionally admitted.
   */
  lemma UnseenUserAdmission(m: LastTimes, u: UserId, now: Time, minInterval: Time)
    requires u !in m
    ensures Allows(m, u, now, minInterval) <==> now >= minInterval
  {
  }

  /**
   The reported wait is exact: at any time `t` from `now` on, a message is
   admitted exactly when `t` is at least `now` plus the wait reported at `now`.
   */
  lemma WaitIsExact(m: LastTimes, u: UserId, now: Time, minInterval: Time, t: Time)
    requires now <= t
    ensures Allows(m, u, t, minInterval) <==> t >= now + Wait(m, u, now, minInterval)
  {
  }

  /**
   After an admission at `now`, the same user is refused at every time
   before `now + minInterval` and admitted at every time from then on, until
   another admission.
   */
  lemma AdmissionStartsInterval(m: LastTimes, u: UserId, now: Time, minInterval: Time, t: Time)
    requires Allows(m, u, now, minInterval)
    ensures Allows(Recorded(m, u, now, minInterval), u, t, minInterval) <==> t >= now + minInterval
  {
  }

  // ---------------------------------------------------------------------
  // Spacing over a whole run
  // ---------------------------------------------------------------------

  /** One `record_message` call. */
  datatype Request = Request(user: UserId, now: Time)

  /** The store after some calls, and every message admitted so far, per user, in order. */
  datatype RunState = RunState(last: LastTimes, admitted: map<UserId, seq<Time>>)

  function Admitted(s: RunState, u: UserId): seq<Time> {
    if u in s.admitted then s.admitted[u] else []
  }

  /** One `record_message` call, with the admitted message logged. */
  function Step(s: RunState, r: Request, minInterval: Time): RunState {
    RunState(
      Recorded(s.last, r.user, r.now, minInterval),
      if Allows(s.last, r.user, r.now, minInterval) then s.admitted[r.user := Admitted(s, r.user) + [r.now]] else s.admitted)
  }

  /** The state after the calls `reqs`, made in order on a fresh limiter. */
  function Run(reqs: seq<Request>, minInterval: Time): RunState
    decreases |reqs|
  {
    if reqs == [] then RunState(map[], map[])
    else Step(Run(reqs[..|reqs| - 1], minInterval), reqs[|reqs| - 1], minInterval)
  }

  /**
   The admissions `a` of one user are spaced by at least `minInterval`, the
   first at least `minInterval` after time 0.
   */
  predicate Spaced(a: seq<Time>, minInterval: Time) {
    && (a != [] ==> a[0] >= minInterval)
    && forall i :: 0 < i < |a| ==> a[i] - a[i - 1] >= minInterval
  }

  /**
   The invariant of a run for user `u`: the user's admissions are spaced,
   and the stored time of the user is the latest of them (0 when there is
   none).
   */
  ghost predicate UserConsistent(s: RunState, minInterval: Time, u: UserId) {
    var a := Admitted(s, u);
    Spaced(a, minInterval) && Last(s.last, u) == (if a == [] then 0.0 else a[|a| - 1])
  }

  /** The invariant of a run, for every user. */
  ghost predicate Consistent(s: RunState, minInterval: Time) {
    forall u :: UserConsistent(s, minInterval, u)
  }

  /** Every call keeps the invariant of a run for every user. */
  lemma StepKeepsUserConsistent(s: RunState, r: Request, minInterval: Time, u: UserId)
    requires UserConsistent(s, minInterval, u)
    ensures UserConsistent(Step(s, r, minInterval), minInterval, u)
  {
    var s' := Step(s, r, minInterval);
    var a := Admitted(s, u);
    if u == r.user && Allows(s.last, r.user, r.now, minInterval) {
      assert Admitted(s', u) == a + [r.now];
      assert Last(s'.last, u) == r.now;
    } else {
      assert Admitted(s', u) == a;
      assert Last(s'.last, u) == Last(s.last, u);
    }
  }

  /** Every call keeps the invariant of a run. */
  lemma StepKeepsConsistent(s: RunState, r: Request, minInterval: Time)
    requires Consistent(s, minInterval)
    ensures Consistent(Step(s, r, minInterval), minInterval)
  {
    forall u
      ensures UserConsistent(Step(s, r, minInterval), minInterval, u)
    {
      StepKeepsUserConsistent(s, r, minInterval, u);
    }
  }

  /** Every run, from a fresh limiter, satisfies the invariant. */
  lemma {:induction false} RunConsistent(reqs: seq<Request>, minInterval: Time)
    ensures Consistent(Run(reqs, minInterval), minInterval)
    decreases |reqs|
  {
    if reqs == [] {
      forall u
        ensures UserConsistent(Run(reqs, minInterval), minInterval, u)
      {
      }
    } else {
      RunConsistent(reqs[..|reqs| - 1], minInterval);
      StepKeepsConsistent(Run(reqs[..|reqs| - 1], minInterval), reqs[|reqs| - 1], minInterval);
    }
  }

  /** In a spaced sequence with a non-negative interval, any two elements lie at least the interval apart. */
  lemma {:induction false} SpacedGap(a: seq<Time>, minInterval: Time, i: int, j: int)
    requires Spaced(a, minInterval) && minInterval >= 0.0
    requires 0 <= i < j < |a|
    ensures a[j] - a[i] >= minInterval
    decreases j - i
  {
    if i + 1 < j {
      SpacedGap(a, minInterval, i, j - 1);
      assert a[j] - a[j - 1] >= minInterval;
    }
  }

  /**
   Over any run, a user's first admission is at least `minInterval` after
   time 0: an unseen user counts as last admitted at 0.
   */
  lemma FirstAdmissionAfterInterval(reqs: seq<Request>, minInterval: Time, u: UserId)
    ensures var a := Admitted(Run(reqs, minInterval), u);
            a != [] ==> a[0] >= minInterval
  {
    RunConsistent(reqs, minInterval);
    assert UserConsistent(Run(reqs, minInterval), minInterval, u);
  }

  /**
   The throttling guarantee over a whole run: any two admitted messages of
   the same user are at least `minInterval` apart.
   */
  lemma AdmissionsSpaced(reqs: seq<Request>, minInterval: Time, u: UserId, i: int, j: int)
    requires minInterval >= 0.0
    requires 0 <= i < j < |Admitted(Run(reqs, minInterval), u)|
    ensures var a := Admitted(Run(reqs, minInterval), u);
            a[j] - a[i] >= minInterval
  {
    RunConsistent(reqs, minInterval);
    var a := Admitted(Run(reqs, minInterval), u);
    assert UserConsistent(Run(reqs, minInterval), minInterval, u);
    SpacedGap(a, minInterval, i, j);
  }

  // ---------------------------------------------------------------------
  // The limiter
  // ---------------------------------------------------------------------

  class ThrottlingRateLimiter {
    const minInterval: Time
    var userLastMessageTime: LastTimes

    constructor (minInterval: Time := 10.0)
      requires minInterval > 0.0
      ensures this.minInterval == minInterval
      ensures userLastMessageTime == map[]
    {
      this.minInterval := minInterval;
      userLastMessageTime := map[];
    }

    /**
     `can_send_message`: at least `minInterval` has passed since the user's
     last admitted message, an unseen user counting as admitted at 0.
     */
    predicate CanSendMessage(user: UserId, now: Time): (b: bool)
      reads this
      ensures b <==> now >= Last(userLastMessageTime, user) + minInterval
      ensures user !in userLastMessageTime ==> (b <==> now >= minInterval)
    {
      Allows(userLastMessageTime, user, now, minInterval)
    }

    /**
     `time_until_next_allowed`: never negative, zero exactly when
     `CanSendMessage` admits, and otherwise ending exactly `minInterval`
     after the user's last admitted message.
     */
    function TimeUntilNextAllowed(user: UserId, now: Time): (w: Time)
      reads this
      ensures w >= 0.0
      ensures w == 0.0 <==> CanSendMessage(user, now)
      ensures w > 0.0 ==> now + w == Last(userLastMessageTime, user) + minInterval
    {
      Wait(userLastMessageTime, user, now, minInterval)
    }

    /**
     `record_message`: admits the message iff `CanSendMessage` allows it, and
     then makes `now` the user's last admitted time. After an admission the
     user is admitted again exactly from `now + minInterval` on.
     */
    method RecordMessage(user: UserId, now: Time) returns (ok: bool)
      modifies this
      ensures ok == old(CanSendMessage(user, now))
      ensures userLastMessageTime == Recorded(old(userLastMessageTime), user, now, minInterval)
      ensures ok ==> forall t :: CanSendMessage(user, t) <==> t >= now + minInterval
    {
      ok := CanSendMessage(user, now);
      if ok {
        userLastMessageTime := userLastMessageTime[user := now];
      }
    }
  }

  /**
   A concrete run with the default ten-unit interval: a first message at 5
   is refused (an unseen user counts as admitted at 0), one at 100 is
   admitted, one at 105 is refused with five units left to wait, and one at
   exactly 110 is admitted.
   */
  method ThrottleScenario() returns (early: bool, first: bool, second: bool, wait: Time, third: bool)
    ensures !early && first && !second && wait == 5.0 && third
  {
    var limiter := new ThrottlingRateLimiter();
    early := limiter.RecordMessage("1", 5.0);
    first := limiter.RecordMessage("1", 100.0);
    second := limiter.RecordMessage("1", 105.0);
    wait := limiter.TimeUntilNextAllowed("1", 105.0);
    third := limiter.RecordMessage("1", 110.0);
  }
}

# Per-user rate limiters in Dafny

This project models the two admission controllers of the repository. Each one
answers the question "may this user send a message now, and if not, how long
must they wait?".

- `SlidingWindow` (`sliding_window.dfy`, modelling `task-1/main.py`) covers
  `SlidingWindowRateLimiter`.
  - It keeps, for every user, a queue of admission timestamps, oldest first.
  - Cleanup pops timestamps from the head of the queue while the head is at or
    before `now - windowSize`. It deletes the user's entry once the queue is
    empty.
  - A request is admitted when fewer than `maxRequests` timestamps remain.
    An admitted request appends `now` at the tail.
  - The wait is the time until the oldest retained timestamp leaves the window.
- `Throttling` (`throttling.dfy`, modelling `task-2/main.py`) covers
  `ThrottlingRateLimiter`.
  - It keeps one "last admitted" time per user. A user never seen counts as
    last admitted at time 0.
  - A request is admitted when `now - last >= minInterval`.
  - The wait is `max(0, minInterval - (now - last))`.

Both limiters are classes whose store is a field that the methods reassign.
The sliding-window cleanup loop is a `while` loop over the queue, proved
against the function `DropExpired`. Each class method is tied by its contract
to a specification function of the old state. The properties are proved as
lemmas about those functions, in two groups:

- properties of one call;
- properties of a whole run of calls replayed from an empty limiter. These
  are capacity over every admission ever made, sortedness under a clock that
  never goes backwards, and spacing of a user's admissions.

The clock is not read inside the model. Every call takes the current time as
an explicit `now` argument.

## Model

| member | source | states |
|---|---|---|
| SlidingWindow.DropExpired | task-1/main.py:19-20 | cleanup never lengthens a queue, and the head of what it leaves, if any, is later than the cutoff |
| SlidingWindow.DropExpiredSplit | task-1/main.py:19-20 | cleanup removes only a prefix: the retained queue is a suffix of the original in the same order, the popped prefix followed by the retained part is the original queue, and every popped timestamp is expired |
| SlidingWindow.PopExpired | task-1/main.py:19-20 | the `while ... popleft()` loop leaves exactly the queue `DropExpired` specifies |
| SlidingWindow.DropExpiredSorted | task-1/main.py:19-20 | on a sorted queue, cleanup leaves a sorted queue in which every timestamp is later than the cutoff |
| SlidingWindow.DropExpiredIsLive | task-1/main.py:19-20 | on a sorted queue, head-only cleanup keeps exactly the live timestamps, as given by the independent filter `Live` |
| SlidingWindow.HeadOnlyCleanup | task-1/main.py:19 | only the head is inspected: on the unsorted queue [5, 1] with cutoff 2, the expired 1 survives cleanup although it is not live |
| SlidingWindow.DropExpiredMonotone | task-1/main.py:19-20 | cleaning at one cutoff and then at a later one equals cleaning at the later one alone; cleaning twice at the same cutoff is idempotent |
| SlidingWindow.Cleaned | task-1/main.py:17-22 | after `_cleanup_window(u)`, `u`'s queue is the cleaned queue, and `u` is a key exactly when that queue is non-empty; every other user's key and queue are unchanged |
| SlidingWindow.WaitTime | task-1/main.py:44-46 | the reported wait is never negative; it is zero for an empty queue and positive while the oldest timestamp is still inside the window; a positive wait ends exactly when the oldest timestamp expires |
| SlidingWindow.WaitZeroIffNothingRetained | task-1/main.py:41-46 | after cleanup the wait is zero exactly when nothing is retained; with `maxRequests == 1` it is zero exactly when a request would be admitted; with any `maxRequests >= 1` a zero wait means admission |
| SlidingWindow.SingleSlotWaitIsExact | task-1/main.py:41-46 | with one slot, a request at any later time `t` is admitted exactly when `t` is at least `now` plus the wait reported at `now` |
| SlidingWindow.Appended | task-1/main.py:34-36 | `record_message` puts `now` at the tail of `u`'s queue (a fresh queue for an absent user), makes `u` a key, and changes no other user's key or queue |
| SlidingWindow.CleanedBounded | task-1/main.py:21-22 | cleanup keeps the store free of empty entries and every queue within `maxRequests` |
| SlidingWindow.AppendedBounded | task-1/main.py:33-36 | an append to a queue with room keeps the store free of empty entries and within `maxRequests` |
| SlidingWindow.CleanedOrdered | task-1/main.py:17-22 | on a store of sorted queues, cleanup keeps every queue sorted and leaves no expired timestamp in the cleaned queue |
| SlidingWindow.AppendedOrdered | task-1/main.py:36 | appending a time no earlier than every stored timestamp keeps every queue sorted |
| SlidingWindow.SortedCleanupIsExact | task-1/main.py:17-22 | when `u`'s queue is sorted, the cleaned queue is exactly its live part |
| SlidingWindow.AfterCallEffect | task-1/main.py:17-38 | a call changes only the caller's queue; that queue keeps what cleanup leaves and, on an admitted `record_message`, gains `now` at the tail |
| SlidingWindow.CleanupKeepsHistory | task-1/main.py:17-22 | cleanup forgets no admission: popped timestamps followed by retained ones are the same before and after, for every user |
| SlidingWindow.CleanupKeepsExpired | task-1/main.py:19-20 | every timestamp cleanup has ever popped stays expired at any later cutoff |
| SlidingWindow.RecordExtendsHistory | task-1/main.py:36 | an admission extends its own user's history by `now` and no other user's history |
| SlidingWindow.CallHistory | task-1/main.py:25-38 | one call extends the caller's history by `now` exactly when it is an admitted `record_message`, and leaves every other history alone |
| SlidingWindow.StepHistory | task-1/main.py:25-38 | the same as `CallHistory`, for one step of a run |
| SlidingWindow.StepKeepsAccounted | task-1/main.py:17-38 | every call made no later than `t` keeps the run invariant: the store is bounded, popped timestamps are expired at `t`, and popped plus retained timestamps are exactly the admissions |
| SlidingWindow.RunAccounted | task-1/main.py:17-38 | every run from an empty limiter whose calls are all no later than `t` satisfies the run invariant at `t` |
| SlidingWindow.WindowCapacity | task-1/main.py:28 | at any instant `t` no earlier than every call of a run, at most `maxRequests` of the timestamps ever admitted for a user lie inside the window ending at `t` |
| SlidingWindow.RunOrdered | task-1/main.py:31-38 | when calls come at non-decreasing times, every stored queue stays sorted and lies no later than the last call |
| SlidingWindow.CleanupIsExact | task-1/main.py:17-22 | when calls come at non-decreasing times, the next cleanup keeps exactly the live timestamps of the caller's queue |
| SlidingWindow.SlidingWindowRateLimiter.constructor | task-1/main.py:11-14 | an empty store, with the given window and capacity, defaulting to 10 and 1 |
| SlidingWindow.SlidingWindowRateLimiter.CleanupWindow | task-1/main.py:17-22 | the new store is `Cleaned` of the old one; no empty entry and no queue longer than `maxRequests` exists before or after |
| SlidingWindow.SlidingWindowRateLimiter.CanSendMessage | task-1/main.py:25-28 | returns true exactly when fewer than `maxRequests` timestamps remain for the user after cleanup (an absent user counts as zero); the store changes only by that cleanup |
| SlidingWindow.SlidingWindowRateLimiter.RecordMessage | task-1/main.py:31-38 | returns true exactly when admission is allowed; on true `now` is appended at the tail of the user's queue, and on false the store differs from the old one only by cleanup |
| SlidingWindow.SlidingWindowRateLimiter.TimeUntilNextAllowed | task-1/main.py:41-46 | returns the wait of the cleaned queue, which is never negative and zero when nothing is retained; the store changes only by cleanup |
| SlidingWindow.WindowScenario | task-1/main.py:10-46 | with a 10-unit window and one slot, a request at 0 is admitted, one at 5 is refused with 5 units to wait, and one at exactly 10 is admitted |
| Throttling.Wait | task-2/main.py:27-30 | the wait is never negative, it is zero exactly when `can_send_message` would admit, and a positive wait ends exactly `minInterval` after the last admission |
| Throttling.Recorded | task-2/main.py:20-24 | on admission the user's last time becomes `now`; on refusal the map is unchanged; no other user's entry changes, and no key is ever removed |
| Throttling.UnseenUserAdmission | task-2/main.py:16-17 | a user never admitted is admitted exactly when `now >= minInterval`, so a first request is not unconditionally admitted |
| Throttling.WaitIsExact | task-2/main.py:27-30 | at any time `t` from `now` on, a request is admitted exactly when `t` is at least `now` plus the wait reported at `now` |
| Throttling.AdmissionStartsInterval | task-2/main.py:14-24 | after an admission at `now`, the same user is refused before `now + minInterval` and admitted from then on, until another admission |
| Throttling.StepKeepsUserConsistent | task-2/main.py:20-24 | one `record_message` keeps a user's admissions spaced and that user's stored time equal to the latest of them |
| Throttling.StepKeepsConsistent | task-2/main.py:20-24 | one `record_message` keeps that invariant for every user |
| Throttling.RunConsistent | task-2/main.py:20-24 | every run from an empty limiter satisfies that invariant for every user |
| Throttling.FirstAdmissionAfterInterval | task-2/main.py:14-24 | over any run, a user's first admission, if any, is at least `minInterval` after time 0 |
| Throttling.AdmissionsSpaced | task-2/main.py:14-24 | over any run, any two admissions of one user are at least `minInterval` apart |
| Throttling.ThrottlingRateLimiter.constructor | task-2/main.py:9-11 | an empty map, with the given interval, defaulting to 10 |
| Throttling.ThrottlingRateLimiter.CanSendMessage | task-2/main.py:14-17 | admits exactly when `now` is at least `minInterval` after the user's stored last time; an unseen user is admitted exactly when `now >= minInterval` |
| Throttling.ThrottlingRateLimiter.TimeUntilNextAllowed | task-2/main.py:27-30 | the wait is never negative, zero exactly when `CanSendMessage` admits at the same `now`, and a positive wait ends exactly `minInterval` after the last admission |
| Throttling.ThrottlingRateLimiter.RecordMessage | task-2/main.py:20-24 | returns what `can_send_message` answers at `now`, and updates the map as `Recorded` says; after an admission the user is admitted again exactly from `now + minInterval` on |
| Throttling.ThrottleScenario | task-2/main.py:8-30 | with the default interval, a first request at 5 is refused; one at 100 is admitted; one at 105 is refused with 5 units to wait; one at exactly 110 is admitted |

## Left out

- Wall clock: `time.time()` is replaced by a `now` argument to every call.
  `record_message` reads the clock twice in both files (task-1/main.py:26 and
  :32, task-2/main.py:15 and :22). The model uses one `now` for both reads.
- Floating point: timestamps and durations are `real`, so there is no rounding.
  The default window of the sliding-window limiter is the integer 10 in the
  code and `10.0` here.
- The console and test drivers are not part of this model:
  `print_message_status`, `test_rate_limiter` and `test_throttling_limiter`
  (task-1/main.py:50-80, task-2/main.py:34-65). They use `print`,
  `time.sleep` and `random.uniform`.
- Configuration checks: the code validates nothing. The constructors require
  a positive window or interval and `maxRequests >= 1`, and the model invents
  no error path for other values.
- Concurrency and locking: the code has none, and the model is sequential.
- Deques: a user's deque is a `seq` value that the methods reassign. Aliasing
  of one deque object by two holders is not modelled; the code never does it.
- SlidingWindow.SlidingWindowRateLimiter.CleanupWindow: its contract states
  only that the head left is live, not that every retained timestamp is.
  Cleanup inspects only the head (`HeadOnlyCleanup`), so the stronger property
  holds only when queues are sorted. That needs calls at non-decreasing times,
  which is a property of a run (`CleanedOrdered`, `RunOrdered`,
  `CleanupIsExact`) rather than an object invariant.
- SlidingWindow.WindowCapacity: the record of every admission ever made and
  of every popped timestamp exists only in the run model (`Run`). The class
  keeps just the retained queues, as the code does.
- The first message to the throttle: a throttle is often expected to admit
  a user's first message unconditionally. The code instead looks the user up
  with a default of 0 (task-2/main.py:16), so the first message is admitted
  only when `now >= minInterval`. The model follows the code
  (`UnseenUserAdmission`, `ThrottleScenario`).

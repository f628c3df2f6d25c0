# MrClub admin dashboard: live change detection and online status

This project models the two pieces of the admin dashboard (`admin.js`) that
hold logic rather than page rendering, and proves what they do.

- **Online status** (`Liveness`). A customer is shown as online when the
  last activity is at most five minutes old. Timestamps are integer
  milliseconds. A NULL `last_activity` goes through `new Date(null)`, which is
  the epoch, so it is treated as timestamp 0 and not as a separate case.
  `Online` computes the age in minutes as a real quotient, as the dashboard
  does. Its contract proves this is the same as "age in milliseconds is at
  most 300000".
- **Change-detection poller** (`ChangeDetection`). Every ten seconds the
  dashboard counts customers (the `users` table) and orders. It compares each
  count with the one it remembered and announces growth to the connected
  browsers. The remembered counts are the module-level variables
  `lastUserCount` and `lastOrderCount`. They become the fields of the class
  `Poller`, whose `PollDatabase` method performs one tick. Each query outcome
  (a count or an exception) is a parameter. The announcements are returned
  as a sequence of `Event`s. `Step` is the same tick on values, and
  `PollDatabase` is proved equal to it. `Run` applies `Step` to successive
  ticks.

In three places the code behaves differently from what a reader might expect, and the model follows the code:

- The code has no "baseline established" flag. It tests the remembered count
  for JavaScript truthiness, so a real previous count of 0 counts as "no
  baseline yet". Growth from an empty table is never announced, and neither
  is the first growth after a table has been emptied (`ZeroBaselineSilent`).
- A NULL last activity is not always offline. It is online while the clock
  is within five minutes of the epoch (`NullActivity`).
- A failure of either count query ends the tick before any announcement or
  assignment. If the customer query fails, the order query is never sent.
  The model then ignores the order outcome. The only other effect of a failed
  tick is the `console.error` log line (admin.js:693), which is not modelled.

## Model

| member | source | states |
|---|---|---|
| `Liveness.Online` | admin.js:41-46 | The age in minutes, `(now - last) / 60000` as a real number, is at most 5 exactly when `now - last <= 300000` ms |
| `Liveness.IsOnline` | admin.js:41-46 | For a timestamp, online iff it is at most 300000 ms before `now`. For a NULL last activity, converted to the epoch by `new Date(null)`, online iff `now` is at most 300000 ms |
| `Liveness.BoundaryIsOnline` | admin.js:44-45 | Activity exactly five minutes old is online, and one millisecond older is offline |
| `Liveness.SampleAges` | admin.js:41-46 | Activity from now is online, four minutes old is online, and five minutes and one second old is offline |
| `Liveness.FutureActivityIsOnline` | admin.js:44-45 | A last activity later than the clock gives a negative age and is online |
| `Liveness.NullActivity` | admin.js:43-45 | A NULL last activity, read as the epoch, is online iff the clock is at most five minutes past the epoch |
| `Liveness.OnlineMonotone` | admin.js:41-46 | Online status is kept when the activity is later or the clock is earlier |
| `ChangeDetection.Step` | admin.js:671-695 | One tick on values. A failed query leaves the remembered counts unchanged and announces nothing. A successful tick remembers exactly the sampled counts. Nothing is announced unless both queries succeeded and some remembered count was non-zero. At most two events are announced |
| `ChangeDetection.TickEvents` | admin.js:678-689 | One tick gives at most two events. Each carries a strictly positive growth, and a customer event always comes before an order event |
| `ChangeDetection.Run` | admin.js:671-696 | Over `n` ticks at most `2n` events are announced |
| `ChangeDetection.StepReported` | admin.js:672-691 | For each counter separately, a tick announces `new - previous` iff both queries succeeded, the previous count is non-zero and the new count is larger. Otherwise it announces nothing for that counter, whatever the other counter does |
| `ChangeDetection.ZeroBaselineSilent` | admin.js:669-670 | While a counter's remembered count is 0, the first tick included, no tick announces that counter |
| `ChangeDetection.StartupTickSilent` | admin.js:669-691 | The first tick after start-up announces nothing. It adopts the sampled counts if both queries succeed and otherwise keeps 0 and 0 |
| `ChangeDetection.GrowthAnnounced` | admin.js:678-689 | A positive previous count and a larger new count give exactly one event for that counter, carrying the difference |
| `ChangeDetection.NoGrowthAbsorbed` | admin.js:678-691 | An equal or smaller count announces nothing for that counter, but the remembered count still becomes the new, smaller, value |
| `ChangeDetection.RepeatTickSilent` | admin.js:690-691 | After a successful tick the remembered counts equal the sample, so the same counts again announce nothing and change nothing |
| `ChangeDetection.FailedTickChangesNothing` | admin.js:672-694 | A tick in which either query throws announces nothing and leaves both remembered counts as they were |
| `ChangeDetection.WorkedTicks` | admin.js:678-691 | From 10 customers and 4 orders, a sample of 13 and 4 announces `+3` customers only. A sample of 8 and 4 announces nothing and remembers 8 |
| `ChangeDetection.DropThenRegrow` | admin.js:678-691 | Because a drop is absorbed silently, customers deleted and then registered again are announced a second time, as `+(count - dropped count)`, unless the count fell to 0: a remembered 0 then hides the regrowth |
| `ChangeDetection.RunAllFailed` | admin.js:692-694 | A run of ticks that all fail announces nothing and keeps the remembered counts |
| `ChangeDetection.RunReportsGrowth` | admin.js:669-696 | Once a counter is non-zero and never drops, the diffs announced for it over any run of ticks add up to exactly its total growth. Failed ticks may be mixed in. Nothing is lost and nothing is announced twice. The helper lemmas `ReportedAppend` and `SumAppend` split the per-counter events and their total over consecutive ticks |
| `ChangeDetection.Poller.constructor` | admin.js:669-670 | Both remembered counts start at 0 |
| `ChangeDetection.Poller.PollDatabase` | admin.js:671-695 | The new remembered counts and the returned events are exactly those of `Step` applied to the old counts and the two query outcomes |

## Left out

- Express routes, HTML generation, form handling and redirects are left out. They are page rendering with no logic to state.
- The SQL queries and the `pg` pool are left out. Counts and query failures are inputs. This also covers the revenue `COALESCE` and the SQL-side online filter at admin.js:149. That filter uses a strict `>` against `now - 5 minutes`, while `isOnline` accepts exactly five minutes. The two disagree at the boundary.
- The seven-day chart is left out. Its data is a hard-coded literal and its labels are locale formatting.
- The Socket.IO broadcast and the browser-side notification script are left out. Announcements are the returned event sequence, not a fan-out to subscribers.
- The notification message text is left out. Each `Event` carries the counter and the diff shown in the message, not the Russian string.
- The `setInterval` scheduling and the self-ping `fetch` loop are left out because they are timers and network I/O. A slow async tick can overlap the next one. No `await` separates the comparison from the assignments (admin.js:675-691), so overlapping ticks still apply their samples one at a time, in the order their queries complete, and a sample may be stale. `Run` over arbitrary samples covers that order. The interleaving of the queries themselves is not modelled.
- `parseInt` of the count text is left out. Counts are exact naturals, while JavaScript numbers are exact only below 2^53.
- `Liveness.Online`: the age is computed in exact real arithmetic, not in IEEE doubles. For integer millisecond differences near the five-minute boundary, rounding does not change the comparison.
- The wall clock `new Date()` is a parameter `now` of `IsOnline`.

/** The dashboard's online/offline classification of a customer from the
    customer's last-activity timestamp. Timestamps are integer milliseconds
    since the Unix epoch, as a JavaScript `Date` holds them. */
module Liveness {

  const MsPerMinute: int := 1000 * 60

  /** A customer is online while the last activity is at most this many minutes old. */
  const OnlineMinutes: int := 5

  /** The same window in milliseconds. */
  const OnlineWindowMs: int := OnlineMinutes * MsPerMinute

  /** The `last_activity` column of a customer: SQL NULL or a timestamp. */
  datatype LastActivity = Null | At(ms: int)

  /** `new Date(lastActivity)`: a NULL column becomes the epoch, 0 ms. */
  function DateMs(lastActivity: LastActivity): int
  {
    match lastActivity
    case Null => 0
    case At(ms) => ms
  }

  /** The age of the activity in minutes, compared with the window, as the
      dashboard computes it; equivalently, the age in milliseconds is at most
      the window. */
  function Online(last: int, now: int): (r: bool)
    ensures r <==> now - last <= OnlineWindowMs
  {
    (now - last) as real / MsPerMinute as real <= OnlineMinutes as real
  }

  /** The classifier applied to a customer row at wall-clock time `now`. */
  function IsOnline(lastActivity: LastActivity, now: int): (r: bool)
    ensures lastActivity.At? ==> (r <==> now - lastActivity.ms <= OnlineWindowMs)
    ensures lastActivity.Null? ==> (r <==> now <= OnlineWindowMs)
  {
    Online(DateMs(lastActivity), now)
  }

  /** Activity exactly five minutes old is still online; one millisecond more is offline. */
  lemma BoundaryIsOnline(now: int)
    ensures IsOnline(At(now - OnlineWindowMs), now)
    ensures !IsOnline(At(now - OnlineWindowMs - 1), now)
  {
  }

  /** Activity four minutes old is online; five minutes and one second is offline. */
  lemma SampleAges(now: int)
    ensures IsOnline(At(now), now)
    ensures IsOnline(At(now - 4 * MsPerMinute), now)
    ensures !IsOnline(At(now - OnlineWindowMs - 1000), now)
  {
  }

  /** A last activity later than the clock gives a negative age, which is online. */
  lemma FutureActivityIsOnline(last: int, now: int)
    requires now <= last
    ensures IsOnline(At(last), now)
  {
  }

  /** A NULL last activity is read as the epoch: offline exactly when the clock is
      more than five minutes past the epoch. */
  lemma NullActivity(now: int)
    ensures IsOnline(Null, now) <==> now <= OnlineWindowMs
  {
  }

  /** Being online is kept by a later activity and by an earlier clock reading. */
  lemma OnlineMonotone(last: int, now: int, last': int, now': int)
    requires IsOnline(At(last), now)
    requires last <= last' && now' <= now
    ensures IsOnline(At(last'), now')
  {
  }
}

/** The monotonic deadline and the bounded wait for an exclusive lock. Time is a real number. */
module LockWait {
  import opened Wrappers

  // The clock is read by the caller and passed as `now`.
  datatype Deadline = Deadline(seconds: real, started: real, reserve: real) {
    function Elapsed(now: real): real { now - started }

    function Remaining(now: real): real {
      var left := seconds - reserve - Elapsed(now);
      if left > 0.0 then left else 0.0
    }

    predicate Expired(now: real) { Remaining(now) <= 0.0 }

    // The moment from which the deadline is expired.
    function Ceiling(): real { started + seconds - reserve }

    function Finalization(): Deadline { this.(reserve := 0.0) }
  }

  function Start(now: real, seconds: real, reserve: real): Option<Deadline> {
    if seconds <= 0.0 || reserve < 0.0 || reserve >= seconds then None else Some(Deadline(seconds, now, reserve))
  }

  // A deadline starts exactly when its reserve lies within a positive budget. It is then open at
  // first, expires exactly at its ceiling and stays expired, and its finalization window expires
  // when the whole budget is spent.
  lemma ExpiryIsPermanent(now: real, seconds: real, reserve: real, t: real, later: real)
    requires now <= t <= later
    ensures Start(now, seconds, reserve).Some? <==> seconds > 0.0 && 0.0 <= reserve < seconds
    ensures Start(now, seconds, reserve).Some? ==>
            var d, ceiling := Start(now, seconds, reserve).value, now + seconds - reserve;
            && !d.Expired(now) && d.Ceiling() == ceiling
            && (d.Expired(t) <==> t >= ceiling)
            && (d.Expired(t) ==> d.Expired(later))
            && d.Remaining(t) == (if t < ceiling then ceiling - t else 0.0)
            && (d.Finalization().Expired(t) <==> t >= now + seconds)
  {
  }

  const UNBOUNDED_WAIT := 120.0

  datatype Attempt = Taken | Busy | Error
  datatype Wait = Locked | TimedOut | Broken

  // One sleep, from when until when.
  datatype Nap = Nap(start: real, end: real)

  // The process and its clock: attempts may take any time, sleeping takes what was asked.
  class Host {
    var now: real
    var held: bool
    ghost var attempts: nat
    ghost var errors: nat
    ghost var naps: seq<Nap>

    // flock(LOCK_EX | LOCK_NB): taken, refused because someone holds it, or an error.
    method TryLock() returns (attempt: Attempt)
      modifies this
      ensures now >= old(now) && attempts == old(attempts) + 1 && naps == old(naps)
      ensures errors == old(errors) + if attempt.Error? then 1 else 0
      ensures held == (attempt.Taken? || old(held))
    {
      attempts := attempts + 1;
      var delay: real := *;
      if delay > 0.0 { now := now + delay; }
      if * { held := true; return Taken; }
      if * { errors := errors + 1; return Error; }
      return Busy;
    }

    method Sleep(duration: real)
      requires duration >= 0.0
      modifies this
      ensures now == old(now) + duration
      ensures attempts == old(attempts) && errors == old(errors) && held == old(held)
      ensures naps == old(naps) + [Nap(old(now), now)]
    {
      naps := naps + [Nap(now, now + duration)];
      now := now + duration;
    }
  }

  // The time some polls take.
  ghost function Polled(n: nat, poll: real): real { if n == 0 then 0.0 else Polled(n - 1, poll) + poll }

  lemma {:induction false} PolledIs(n: nat, poll: real)
    ensures Polled(n, poll) == n as real * poll
  {
    if n > 0 { PolledIs(n - 1, poll); }
  }

  lemma PollsAreBounded(n: nat, poll: real, wait: real)
    requires poll > 0.0 && Polled(n, poll) <= wait
    ensures n <= (wait / poll).Floor
  {
    PolledIs(n, poll);
    if n > (wait / poll).Floor {
      assert n as real > wait / poll;
      MorePollsThanTime(n as real, poll, wait);
    }
  }

  lemma MorePollsThanTime(n: real, poll: real, wait: real)
    requires poll > 0.0 && n > wait / poll
    ensures n * poll > wait
  {
    assert (wait / poll) * poll == wait;
  }

  // A nap is one poll interval, or what is left until the ceiling if that is less.
  ghost predicate Bounded(nap: Nap, bound: Deadline, poll: real) {
    && nap.end == nap.start + (if poll < bound.Remaining(nap.start) then poll else bound.Remaining(nap.start))
    && nap.end <= bound.Ceiling()
  }

  // The sleep between two attempts.
  method Pause(host: Host, bound: Deadline, poll: real)
    requires poll > 0.0 && !bound.Expired(host.now)
    modifies host
    ensures host.attempts == old(host.attempts) && host.errors == old(host.errors) && host.held == old(host.held)
    ensures host.naps == old(host.naps) + [Nap(old(host.now), host.now)]
    ensures Bounded(Nap(old(host.now), host.now), bound, poll)
    ensures bound.Remaining(host.now) <= bound.Remaining(old(host.now))
    ensures !bound.Expired(host.now) ==> bound.Remaining(host.now) == bound.Remaining(old(host.now)) - poll
  {
    var remaining := bound.Remaining(host.now);
    host.Sleep(if poll < remaining then poll else remaining);
  }

  /**
   * acquire_exclusive_lock. It returns only holding the lock, breaks off exactly on an error,
   * times out only once the ceiling has passed, naps between any two attempts, by the poll
   * interval but never past the ceiling, and makes at most two attempts more than polls fit into
   * the time that remained.
   */
  method AcquireExclusiveLock(host: Host, deadline: Option<Deadline>, poll: real) returns (result: Wait)
    requires poll > 0.0 && !host.held
    modifies host
    ensures result.Locked? <==> host.held
    ensures result.Broken? <==> host.errors > old(host.errors)
    ensures |old(host.naps)| <= |host.naps|
    ensures host.attempts - old(host.attempts) == |host.naps| - |old(host.naps)| + 1
    ensures var bound := if deadline.Some? then deadline.value else Deadline(120.0, old(host.now), 0.0);
            && (result.TimedOut? ==> bound.Expired(host.now))
            && (forall i :: |old(host.naps)| <= i < |host.naps| ==> Bounded(host.naps[i], bound, poll))
            && host.attempts - old(host.attempts) <= (bound.Remaining(old(host.now)) / poll).Floor + 2
  {
    var bound := if deadline.Some? then deadline.value else Deadline(UNBOUNDED_WAIT, host.now, 0.0);
    ghost var wait := bound.Remaining(host.now);
    ghost var tries, limit := 0, (wait / poll).Floor;
    PollsAreBounded(0, poll, wait);
    while true
      invariant !host.held && tries == host.attempts - old(host.attempts)
      invariant host.errors == old(host.errors)
      invariant |host.naps| == |old(host.naps)| + tries
      invariant forall i :: |old(host.naps)| <= i < |host.naps| ==> Bounded(host.naps[i], bound, poll)
      invariant bound.Remaining(host.now) <= wait
      invariant !bound.Expired(host.now) ==> Polled(tries, poll) <= wait - bound.Remaining(host.now)
      invariant tries <= limit + 1
      decreases limit + 2 - tries
    {
      var attempt := host.TryLock();
      tries := tries + 1;
      if attempt.Taken? { return Locked; }
      if attempt.Error? { return Broken; }
      var remaining := bound.Remaining(host.now);
      if remaining <= 0.0 { return TimedOut; }
      PollsAreBounded(tries - 1, poll, wait);
      Pause(host, bound, poll);
    }
  }
}

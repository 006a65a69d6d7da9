/** The clock of fossil_sys_event_wait (code/logic/event.c): when its loop on an
    empty queue ends, and when it ends on time.

    A clock is given by its readings: `ticks(k)` is how far it has moved at the
    k-th reading in the loop. */
module EventTimeout {

  const CLOCKS_PER_SEC: nat := 1_000_000

  const UINT32_LIMIT: nat := 0x1_0000_0000

  type Clock = nat -> nat

  function Milliseconds(ticks: nat): nat {
    ticks * 1000 / CLOCKS_PER_SEC
  }

  /** At a million ticks a second: whole milliseconds, rounded down. */
  lemma MillisecondsRoundDown(ticks: nat)
    ensures Milliseconds(ticks) * 1000 <= ticks < Milliseconds(ticks) * 1000 + 1000
  {
  }

  /** The loop's test: the elapsed milliseconds, cut to 32 bits, have reached the
      timeout. */
  predicate Expired(ticks: nat, timeoutMs: nat) {
    Milliseconds(ticks) % UINT32_LIMIT >= timeoutMs
  }

  ghost predicate NotExpiredBefore(ticks: Clock, timeoutMs: nat, k: nat) {
    forall j: nat :: j < k ==> !Expired(ticks(j), timeoutMs)
  }

  /** The loop ends at reading number `k`. */
  ghost predicate FirstExpired(ticks: Clock, timeoutMs: nat, k: nat) {
    Expired(ticks(k), timeoutMs) && NotExpiredBefore(ticks, timeoutMs, k)
  }

  /** The loop of wait on an empty queue, watched for `patience` readings. */
  method Spin(timeoutMs: nat, ticks: Clock, patience: nat) returns (ended: bool, last: nat)
    ensures ended ==> last < patience && FirstExpired(ticks, timeoutMs, last)
    ensures !ended ==> last == patience && NotExpiredBefore(ticks, timeoutMs, patience)
  {
    last := 0;
    while last < patience
      invariant last <= patience
      invariant NotExpiredBefore(ticks, timeoutMs, last)
    {
      if Expired(ticks(last), timeoutMs) {
        return true, last;
      }
      last := last + 1;
    }
    ended := false;
  }

  /** The wait never ends early: the cut only makes the elapsed time smaller. */
  lemma NeverEarly(ticks: nat, timeoutMs: nat)
    requires Expired(ticks, timeoutMs)
    ensures Milliseconds(ticks) >= timeoutMs
  {
  }

  /** A timeout of 0 is over at the first reading. */
  lemma ZeroTimeoutEndsAtOnce(ticks: Clock, last: nat)
    ensures FirstExpired(ticks, 0, last) <==> last == 0
  {
    if last > 0 {
      assert Expired(ticks(0), 0);
    }
  }

  // ---------------------------------------------------------------------
  // How often the clock is read
  // ---------------------------------------------------------------------

  ghost predicate StepWithin(ticks: Clock, gap: nat, k: nat) {
    Milliseconds(ticks(k + 1)) <= Milliseconds(ticks(k)) + gap
  }

  /** From one reading to the next at most `gap` milliseconds pass. */
  ghost predicate ReadEvery(ticks: Clock, gap: nat) {
    Milliseconds(ticks(0)) <= gap && forall k: nat :: StepWithin(ticks, gap, k)
  }

  /** At no reading before the last the timeout was due. */
  ghost predicate OnTime(ticks: Clock, timeoutMs: nat, last: nat) {
    forall j: nat :: j < last ==> Milliseconds(ticks(j)) < timeoutMs
  }

  ghost predicate Due(ticks: Clock, timeoutMs: nat) {
    exists k: nat :: Milliseconds(ticks(k)) >= timeoutMs
  }

  ghost predicate Ends(ticks: Clock, timeoutMs: nat) {
    exists k: nat :: Expired(ticks(k), timeoutMs)
  }

  ghost predicate SmallGap(timeoutMs: nat, gap: nat) {
    timeoutMs == 0 || gap <= UINT32_LIMIT - timeoutMs
  }

  /** With a small gap the cut does not hide the first due reading. */
  lemma DueIsSeen(ticks: Clock, timeoutMs: nat, gap: nat, k: nat)
    requires timeoutMs < UINT32_LIMIT && ReadEvery(ticks, gap) && SmallGap(timeoutMs, gap)
    requires k > 0 ==> Milliseconds(ticks(k - 1)) < timeoutMs
    ensures Expired(ticks(k), timeoutMs) <==> Milliseconds(ticks(k)) >= timeoutMs
  {
    if k > 0 {
      assert StepWithin(ticks, gap, k - 1);
    }
  }

  lemma {:induction false} NotDueBefore(ticks: Clock, timeoutMs: nat, gap: nat, k: nat)
    requires timeoutMs < UINT32_LIMIT && ReadEvery(ticks, gap) && SmallGap(timeoutMs, gap)
    requires NotExpiredBefore(ticks, timeoutMs, k + 1)
    ensures Milliseconds(ticks(k)) < timeoutMs
  {
    if k > 0 {
      NotDueBefore(ticks, timeoutMs, gap, k - 1);
    }
    DueIsSeen(ticks, timeoutMs, gap, k);
  }

  lemma EndsOnTime(ticks: Clock, timeoutMs: nat, gap: nat, last: nat)
    requires timeoutMs < UINT32_LIMIT && ReadEvery(ticks, gap) && SmallGap(timeoutMs, gap)
    requires FirstExpired(ticks, timeoutMs, last)
    ensures OnTime(ticks, timeoutMs, last)
  {
    forall j: nat | j < last
      ensures Milliseconds(ticks(j)) < timeoutMs
    {
      NotDueBefore(ticks, timeoutMs, gap, j);
    }
  }

  lemma DueEnds(ticks: Clock, timeoutMs: nat, gap: nat)
    requires timeoutMs < UINT32_LIMIT && ReadEvery(ticks, gap) && SmallGap(timeoutMs, gap)
    requires Due(ticks, timeoutMs)
    ensures Ends(ticks, timeoutMs)
  {
    var k: nat :| Milliseconds(ticks(k)) >= timeoutMs;
    if !Ends(ticks, timeoutMs) {
      NotDueBefore(ticks, timeoutMs, gap, k);
    }
  }

  // ---------------------------------------------------------------------
  // Two clocks that defeat the loop
  // ---------------------------------------------------------------------

  lemma MillisecondsOf(ms: nat)
    ensures Milliseconds(ms * 1000) == ms
  {
  }

  /** Jumps over the whole stretch in which the cut time has reached the timeout,
      and goes on from the next multiple of 2^32. */
  function LateMs(timeoutMs: nat, k: nat): nat {
    if k < timeoutMs then k else UINT32_LIMIT + (k - timeoutMs)
  }

  function LateClock(timeoutMs: nat): Clock {
    k => LateMs(timeoutMs, k) * 1000
  }

  /** Reading number `timeoutMs` is due, and the wait goes on for as many
      readings again. */
  lemma LateClockIsLate(timeoutMs: nat, gap: nat)
    requires 0 < timeoutMs < UINT32_LIMIT < gap + timeoutMs
    ensures ReadEvery(LateClock(timeoutMs), gap)
    ensures Milliseconds(LateClock(timeoutMs)(timeoutMs)) >= timeoutMs
    ensures FirstExpired(LateClock(timeoutMs), timeoutMs, 2 * timeoutMs)
    ensures !OnTime(LateClock(timeoutMs), timeoutMs, 2 * timeoutMs)
  {
    var ticks := LateClock(timeoutMs);
    forall k: nat
      ensures Milliseconds(ticks(k)) == LateMs(timeoutMs, k)
    {
      MillisecondsOf(LateMs(timeoutMs, k));
    }
    assert forall k: nat :: StepWithin(ticks, gap, k);
  }

  /** Goes through the milliseconds below the timeout, lap after lap of 2^32. */
  function LapMs(timeoutMs: nat, k: nat): (ms: nat)
    requires 0 < timeoutMs < UINT32_LIMIT
    ensures ms % UINT32_LIMIT < timeoutMs
    ensures k >= timeoutMs ==> ms >= UINT32_LIMIT
  {
    if k < timeoutMs then k else UINT32_LIMIT + LapMs(timeoutMs, k - timeoutMs)
  }

  lemma {:induction false} LapStep(timeoutMs: nat, k: nat)
    requires 0 < timeoutMs < UINT32_LIMIT
    ensures LapMs(timeoutMs, k) < LapMs(timeoutMs, k + 1)
    ensures LapMs(timeoutMs, k + 1) <= LapMs(timeoutMs, k) + UINT32_LIMIT - timeoutMs + 1
  {
    if k >= timeoutMs {
      LapStep(timeoutMs, k - timeoutMs);
    }
  }

  function LapClock(timeoutMs: nat): Clock
    requires 0 < timeoutMs < UINT32_LIMIT
  {
    k => LapMs(timeoutMs, k) * 1000
  }

  /** The clock moves on at every reading, the timeout is long due, and the wait
      never ends. */
  lemma LapClockNeverEnds(timeoutMs: nat, gap: nat)
    requires 0 < timeoutMs < UINT32_LIMIT < gap + timeoutMs
    ensures ReadEvery(LapClock(timeoutMs), gap)
    ensures forall k: nat :: LapClock(timeoutMs)(k) < LapClock(timeoutMs)(k + 1)
    ensures Due(LapClock(timeoutMs), timeoutMs) && !Ends(LapClock(timeoutMs), timeoutMs)
  {
    var ticks := LapClock(timeoutMs);
    forall k: nat
      ensures Milliseconds(ticks(k)) == LapMs(timeoutMs, k)
    {
      MillisecondsOf(LapMs(timeoutMs, k));
    }
    forall k: nat
      ensures ticks(k) < ticks(k + 1) && StepWithin(ticks, gap, k)
    {
      LapStep(timeoutMs, k);
    }
    assert Milliseconds(ticks(timeoutMs)) >= timeoutMs;
  }

  // ---------------------------------------------------------------------
  // The exact conditions
  // ---------------------------------------------------------------------

  /** On every clock that is read at least every `gap` milliseconds the wait ends
      at the first reading at which the timeout is due, exactly if the gap leaves
      room for the timeout below 2^32 milliseconds, or the timeout is 0. */
  lemma WaitEndsOnTime(timeoutMs: nat, gap: nat)
    requires timeoutMs < 0x1_0000_0000
    ensures (forall ticks: Clock, last: nat ::
               ReadEvery(ticks, gap) && FirstExpired(ticks, timeoutMs, last) ==> OnTime(ticks, timeoutMs, last))
            <==> timeoutMs == 0 || gap <= 0x1_0000_0000 - timeoutMs
  {
    if SmallGap(timeoutMs, gap) {
      forall ticks: Clock, last: nat | ReadEvery(ticks, gap) && FirstExpired(ticks, timeoutMs, last)
        ensures OnTime(ticks, timeoutMs, last)
      {
        EndsOnTime(ticks, timeoutMs, gap, last);
      }
    } else {
      LateClockIsLate(timeoutMs, gap);
    }
  }

  /** Under the same condition, and only then, the wait ends on every clock on
      which the timeout is due at some reading. */
  lemma WaitEndsWhenDue(timeoutMs: nat, gap: nat)
    requires timeoutMs < 0x1_0000_0000
    ensures (forall ticks: Clock :: ReadEvery(ticks, gap) && Due(ticks, timeoutMs) ==> Ends(ticks, timeoutMs))
            <==> timeoutMs == 0 || gap <= 0x1_0000_0000 - timeoutMs
  {
    if SmallGap(timeoutMs, gap) {
      forall ticks: Clock | ReadEvery(ticks, gap) && Due(ticks, timeoutMs)
        ensures Ends(ticks, timeoutMs)
      {
        DueEnds(ticks, timeoutMs, gap);
      }
    } else {
      LapClockNeverEnds(timeoutMs, gap);
    }
  }
}

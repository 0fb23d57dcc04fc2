/** The keep-alive rule of a session: the period of the timer Connect arms
    (FTPSession.cpp:183-208) and the decision QueueTimerHandler takes at every firing
    (FTPSession.cpp:212-239). */
module KeepAlive {
  import opened Common

  /** The largest interval whose period `noOp * 1000 + 500` still fits a 32-bit int. */
  const MAX_NOOP: int := 2147483

  /** The timer period, in milliseconds, for a keep-alive interval of `noOp` seconds:
      half a second more than the interval, so that a firing does not fall just short of it.
      The int result is handed to the timer as a DWORD. */
  function TimerPeriod(noOp: Int32): (ms: DWord)
    ensures 0 <= noOp <= MAX_NOOP ==> ms == noOp * 1000 + 500
    ensures 0 <= noOp <= MAX_NOOP ==> noOp * 1000 < ms < (noOp + 1) * 1000
  {
    ToDWord(noOp * 1000 + 500)
  }

  /** The smaller of the two idle times, as the handler picks it. */
  function MinSecs(mainSecs: DWord, transSecs: DWord): (m: DWord)
    ensures m <= mainSecs && m <= transSecs
    ensures m == mainSecs || m == transSecs
  {
    if transSecs < mainSecs then transSecs else mainSecs
  }

  /** Whether a firing of the keep-alive timer queues a NoOp. `countBefore` is the firing
      counter before this firing; `mainSecs` and `transSecs` are the seconds since the last
      server action on the main and the transfer connection; `noOp` is the profile's
      interval, compared as a DWORD. */
  function KeepAliveDue(countBefore: int, mainSecs: DWord, transSecs: DWord, noOp: Int32): (due: bool)
    // the immediate first firing after a reset never sends anything
    ensures countBefore == 0 ==> !due
    // nor does a firing when both connections report no idle time at all
    ensures mainSecs == 0 && transSecs == 0 ==> !due
    // otherwise: exactly when both connections have been idle longer than the interval
    ensures countBefore != 0 && (mainSecs != 0 || transSecs != 0) ==>
      (due <==> mainSecs > ToDWord(noOp) && transSecs > ToDWord(noOp))
    // for a non-negative interval the both-zero guard adds nothing to the comparison
    ensures 0 <= noOp ==> (due <==> countBefore != 0 && mainSecs > noOp && transSecs > noOp)
  {
    if countBefore == 0 then false
    else if mainSecs == 0 && transSecs == 0 then false
    else MinSecs(mainSecs, transSecs) > ToDWord(noOp)
  }
}

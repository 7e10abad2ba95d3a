/** When the emitters start sending (main.go:364-365): each emitter reads the
    clock, truncates it to five seconds and adds ten, then reads the clock
    again and sleeps until that instant. Emitters whose first readings fall in
    the same five-second window start together. Times are integer nanoseconds
    since the Unix epoch. */
module Schedule {
  const Second: int := 1_000_000_000
  /** The truncation step, `5 * time.Second`. */
  const Interval: int := 5 * Second
  /** The added lead, `10 * time.Second`. */
  const Lead: int := 10 * Second

  /** `now` truncated to a multiple of five seconds, plus ten seconds.
      Go truncates relative to its zero time, 62135596800 seconds before the
      Unix epoch; that offset is a multiple of five seconds, so truncating
      relative to the epoch gives the same instant. */
  function StartBoundary(now: int): (start: int)
    ensures start % Interval == 0
    ensures start - Lead <= now < start - Lead + Interval
    ensures now < start
  {
    (now / Interval) * Interval + Lead
  }

  /** `time.Until(startTime)`: how long the emitter sleeps, where `now` is the
      reading truncated into `startTime` and `later` the reading `time.Until`
      takes. `Truncate` drops the monotonic reading, so both are wall-clock
      readings and `later` may even precede `now`. The sleep ends on a
      five-second boundary; it is at most ten seconds unless the clock went
      back; and it is more than five seconds and at most ten exactly when
      both readings fall in the same five-second window. */
  function SleepTime(now: int, later: int): (d: int)
    ensures (later + d) % Interval == 0
    ensures later + d - Lead <= now < later + d - Lead + Interval
    ensures now <= later ==> d <= Lead
    ensures Interval < d <= Lead <==> later / Interval == now / Interval
  {
    StartBoundary(now) - later
  }

  /** The start boundary is the only multiple of five seconds whose
      truncation window, shifted back by the lead, holds `now`. */
  lemma StartUnique(now: int, s: int)
    ensures (s % Interval == 0 && s - Lead <= now < s - Lead + Interval) <==> s == StartBoundary(now)
  {
    if s % Interval == 0 && s - Lead <= now < s - Lead + Interval {
      var t := StartBoundary(now);
      var q, p := s / Interval, t / Interval;
      assert s == q * Interval && t == p * Interval;
    }
  }

  /** Emitters that read the clock later never start earlier, and emitters
      whose clock readings fall in the same five-second window start at the
      same instant. */
  lemma StartMonotone(a: int, b: int)
    ensures a <= b ==> StartBoundary(a) <= StartBoundary(b)
    ensures a / Interval == b / Interval ==> StartBoundary(a) == StartBoundary(b)
  {
    if a <= b {
      var p, q := a / Interval, b / Interval;
      if q < p {
        assert (q + 1) * Interval <= p * Interval;
      }
    }
  }
}

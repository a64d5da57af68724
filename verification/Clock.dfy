// Instants are microseconds; most stored instants are truncated to the second.
module Clock {

  const SECOND := 1_000_000

  // What isoformat(timespec="seconds") keeps of an instant.
  function TruncateToSecond(t: int): (s: int)
    ensures s <= t < s + SECOND && s % SECOND == 0
  {
    t - t % SECOND
  }

  lemma TruncateMonotone(a: int, b: int)
    requires a <= b
    ensures TruncateToSecond(a) <= TruncateToSecond(b)
  {
  }

  lemma TruncateShift(t: int, seconds: int)
    ensures TruncateToSecond(t + seconds * SECOND) == TruncateToSecond(t) + seconds * SECOND
  {
  }
}

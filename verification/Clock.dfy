/** Times are whole microseconds. */
module Clock {
  function Seconds(n: int): int { 1_000_000 * n }

  /** Whole seconds, truncated toward zero as Python's `int` does. */
  function Truncated(us: int): int { if us >= 0 then us / 1_000_000 else -(-us / 1_000_000) }

  /** The whole seconds nearest to `us` on the side of zero. */
  lemma TruncatesTowardZero(us: int)
    ensures if us >= 0 then Seconds(Truncated(us)) <= us < Seconds(Truncated(us) + 1)
            else Seconds(Truncated(us) - 1) < us <= Seconds(Truncated(us))
  {}
}

/** The conversions between .NET DateTime values and the engine's 32-bit inode
    timestamps. A DateTime is modelled by its tick count measured from the Unix
    epoch; a tick is 100 nanoseconds. */
module Timestamps {

  const TicksPerSecond: nat := 10000000

  /** Inode timestamps are unsigned 32-bit second counts. */
  const SecondsRange: nat := 0x1_0000_0000

  /** Integer division rounding toward zero, as a cast of a double to an integer
      rounds. */
  function TruncDiv(t: int, d: nat): (q: int)
    requires d > 0
    ensures t >= 0 ==> q >= 0 && q * d <= t < q * d + d
    ensures t < 0 ==> q <= 0 && q * d >= t > q * d - d
  {
    if t >= 0 then DivBracket(t, d); t / d
    else
      var u := -t;
      DivBracket(u, d);
      NegTimes(u / d, d);
      -(u / d)
  }

  lemma DivBracket(u: nat, d: nat)
    requires d > 0
    ensures u / d >= 0 && (u / d) * d <= u < (u / d) * d + d
  {
    assert u == (u / d) * d + u % d;
  }

  lemma NegTimes(x: int, d: nat)
    ensures (-x) * d == -(x * d)
  {
  }

  /** The setters' static_cast<uint32_t>((newTime - Epoch).TotalSeconds): whole
      seconds rounded toward zero, reduced to 32 bits. */
  function ToSeconds(ticks: int): (s: nat)
    ensures s < SecondsRange
    ensures 0 <= ticks < SecondsRange * TicksPerSecond ==>
              s * TicksPerSecond <= ticks < s * TicksPerSecond + TicksPerSecond
  {
    TruncDiv(ticks, TicksPerSecond) % SecondsRange
  }

  /** The getters' Epoch.AddSeconds(t). */
  function FromSeconds(s: nat): (ticks: int)
    ensures ticks >= 0 && ticks % TicksPerSecond == 0
  {
    s * TicksPerSecond
  }

  /** A stored timestamp reads back unchanged through a set. */
  lemma SecondsRoundTrip(s: nat)
    requires s < SecondsRange
    ensures ToSeconds(FromSeconds(s)) == s
  {
    assert FromSeconds(s) / TicksPerSecond == s;
  }

  /** A time in range is stored to the whole second below it: a get after a set
      returns the time with its sub-second part dropped. */
  lemma TicksRoundTrip(ticks: int)
    requires 0 <= ticks < SecondsRange * TicksPerSecond
    ensures FromSeconds(ToSeconds(ticks)) == ticks - ticks % TicksPerSecond
    ensures FromSeconds(ToSeconds(ticks)) <= ticks < FromSeconds(ToSeconds(ticks)) + TicksPerSecond
  {
    var s := ToSeconds(ticks);
    assert s == ticks / TicksPerSecond;
  }

  /** A time less than a second before the epoch is stored as the epoch, not as the
      second before it: the conversion rounds toward zero. */
  lemma JustBeforeEpoch(ticks: int)
    requires -(TicksPerSecond as int) < ticks < 0
    ensures ToSeconds(ticks) == 0
  {
    assert (-ticks) / TicksPerSecond == 0;
  }

  /** Setting is idempotent: the stored value of a stored value is itself. */
  lemma StoreIdempotent(ticks: int)
    ensures ToSeconds(FromSeconds(ToSeconds(ticks))) == ToSeconds(ticks)
  {
    SecondsRoundTrip(ToSeconds(ticks));
  }
}

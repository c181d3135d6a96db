/** parsing/ntp.py: the 64-bit time format of section 6 of RFC 5905, over exact reals. */
module Ntp {
  import opened Wrappers
  import opened Bytes

  const TICKS_PER_SECOND: nat := 0x1_0000_0000
  /** Seconds from the first of January 1900 to the first of January 1970. */
  const NTP_DELTA: nat := 2208988800
  const IMMEDIATELY: bytes := ToBE(1, 8)

  datatype Timestamp = Timestamp(seconds: nat, fraction: nat)

  /** `timestamp >> 32` and `timestamp & 0xFFFFFFFF`. */
  function ParseTimestamp(timestamp: nat): Timestamp {
    Timestamp(timestamp / TICKS_PER_SECOND, timestamp % TICKS_PER_SECOND)
  }

  lemma TimestampParts(timestamp: nat)
    requires timestamp < 0x1_0000_0000_0000_0000
    ensures var t := ParseTimestamp(timestamp);
            && t.seconds < TICKS_PER_SECOND && t.fraction < TICKS_PER_SECOND
            && t.seconds * TICKS_PER_SECOND + t.fraction == timestamp
  {
  }

  /** Python's `int(x)`: truncation towards zero. */
  function Truncate(x: real): int {
    if x >= 0.0 then x.Floor else -((-x).Floor)
  }

  function Ticks(systemTime: real): int {
    Truncate((systemTime + NTP_DELTA as real) * TICKS_PER_SECOND as real)
  }

  /** None when the tick count does not fit an unsigned 64-bit word: `struct.pack` raises. */
  function SystemTimeToNtp(systemTime: real): Option<bytes> {
    var ticks := Ticks(systemTime);
    if 0 <= ticks < 0x1_0000_0000_0000_0000 then Some(ToBE(ticks, 8)) else None
  }

  function NtpToSystemTime(ticks: nat): real {
    ticks as real / TICKS_PER_SECOND as real - NTP_DELTA as real
  }

  /** Every tick count is the tick count of the time it denotes. */
  lemma TicksOfTime(ticks: nat)
    ensures Ticks(NtpToSystemTime(ticks)) == ticks
    ensures NtpToSystemTime(ticks) == 0.0 <==> ticks == NTP_DELTA * TICKS_PER_SECOND
  {
    assert (NtpToSystemTime(ticks) + NTP_DELTA as real) * TICKS_PER_SECOND as real == ticks as real;
  }

  /** From 1900 on, a time is rounded down to its tick; before 1900 truncation rounds up. */
  lemma TimeOfTicks(s: real)
    requires Ticks(s) >= 0
    ensures s >= -(NTP_DELTA as real) <==>
            s - 1.0 / TICKS_PER_SECOND as real < NtpToSystemTime(Ticks(s)) <= s
  {
    var scaled := (s + NTP_DELTA as real) * TICKS_PER_SECOND as real;
    if s >= -(NTP_DELTA as real) {
      assert scaled >= 0.0;
      assert scaled - 1.0 < Ticks(s) as real <= scaled;
    } else {
      assert scaled < 0.0;
      assert Ticks(s) == 0;
    }
  }

  lemma TicksMonotone(s: real, t: real)
    requires s <= t
    ensures Ticks(s) <= Ticks(t)
  {
    var x, y := (s + NTP_DELTA as real) * TICKS_PER_SECOND as real, (t + NTP_DELTA as real) * TICKS_PER_SECOND as real;
    assert x <= y;
  }
}

/** The two clock domains of the DDR controller, ddr_mem.h: events run on system cycles, the controller counts
    memory cycles. */
module MemClock {
  import opened Bits

  /** The frequencies that the constructor accepts; it panics unless the memory is slower than half the system. */
  predicate Accepted(sysFreqKHz: nat, memFreqKHz: nat) {
    0 < memFreqKHz < sysFreqKHz / 2
  }

  function SysToMem(s: nat, sysFreqKHz: nat, memFreqKHz: nat): (m: nat)
    requires sysFreqKHz > 0
    ensures m >= 1
  {
    Quotient(s * memFreqKHz, sysFreqKHz) + 1
  }

  function MemToSys(m: nat, sysFreqKHz: nat, memFreqKHz: nat): nat
    requires memFreqKHz > 0
  {
    Quotient((m + 1) * sysFreqKHz, memFreqKHz)
  }

  function MatchingMemToSys(m: nat, sysFreqKHz: nat, memFreqKHz: nat): nat
    requires memFreqKHz > 0 && m >= 1
  {
    Quotient((2 * m - 1) * sysFreqKHz, memFreqKHz) / 2
  }

  lemma QuotientBounds(a: nat, m: nat)
    requires m > 0
    ensures Quotient(a, m) * m <= a < Quotient(a, m) * m + m
  {
  }

  lemma QuotientAtLeast(a: nat, m: nat, q: nat)
    requires m > 0
    ensures q * m <= a <==> q <= Quotient(a, m)
  {
    BlockBelow(a, m, q);
  }

  lemma OddTimes(m: nat, s: nat)
    requires m >= 1
    ensures (2 * m - 1) * s == 2 * ((m - 1) * s) + s && m * s == (m - 1) * s + s
  {
  }

  lemma Halves(x: nat, f: nat)
    ensures x * f == 2 * (x / 2 * f) + x % 2 * f && x % 2 * f <= f
  {
    assert x == 2 * (x / 2) + x % 2;
  }

  /** The cycle that an event is scheduled at translates back to the memory cycle it was meant for. The bound on
      the frequencies is slightly weaker than what the constructor insists on. */
  lemma MatchingRoundTrip(m: nat, sysFreqKHz: nat, memFreqKHz: nat)
    requires m >= 1 && 0 < memFreqKHz && 2 * memFreqKHz <= sysFreqKHz + 1
    ensures SysToMem(MatchingMemToSys(m, sysFreqKHz, memFreqKHz), sysFreqKHz, memFreqKHz) == m
  {
    var s, f := sysFreqKHz, memFreqKHz;
    var x, y := Quotient((2 * m - 1) * s, f), MatchingMemToSys(m, s, f);
    QuotientBounds((2 * m - 1) * s, f);
    OddTimes(m, s);
    Halves(x, f);
    QuotientAtLeast(y * f, s, m - 1);
    QuotientAtLeast(y * f, s, m);
  }

  lemma AcceptedRoundTrip(m: nat, sysFreqKHz: nat, memFreqKHz: nat)
    requires m >= 1 && Accepted(sysFreqKHz, memFreqKHz)
    ensures SysToMem(MatchingMemToSys(m, sysFreqKHz, memFreqKHz), sysFreqKHz, memFreqKHz) == m
  {
    MatchingRoundTrip(m, sysFreqKHz, memFreqKHz);
  }

  lemma SysToMemMonotone(s: nat, t: nat, sysFreqKHz: nat, memFreqKHz: nat)
    requires s <= t && sysFreqKHz > 0
    ensures SysToMem(s, sysFreqKHz, memFreqKHz) <= SysToMem(t, sysFreqKHz, memFreqKHz)
  {
    var q := Quotient(s * memFreqKHz, sysFreqKHz);
    QuotientBounds(s * memFreqKHz, sysFreqKHz);
    assert t * memFreqKHz == s * memFreqKHz + (t - s) * memFreqKHz;
    QuotientAtLeast(t * memFreqKHz, sysFreqKHz, q);
  }

  /** Responses are never reported in the past: what happens at or after a system cycle's memory cycle is
      reported at or after that system cycle. */
  lemma ResponseNotInPast(s: nat, m: nat, sysFreqKHz: nat, memFreqKHz: nat)
    requires sysFreqKHz > 0 && memFreqKHz > 0 && m >= SysToMem(s, sysFreqKHz, memFreqKHz)
    ensures MemToSys(m, sysFreqKHz, memFreqKHz) >= s
  {
    var q := Quotient(s * memFreqKHz, sysFreqKHz);
    QuotientBounds(s * memFreqKHz, sysFreqKHz);
    assert (m + 1) * sysFreqKHz == q * sysFreqKHz + sysFreqKHz + (m - q) * sysFreqKHz;
    assert (m - q) * sysFreqKHz >= 0;
    QuotientAtLeast((m + 1) * sysFreqKHz, memFreqKHz, s);
  }

  /** The system cycle that tick and enqueue schedule an event at, when it is now system cycle s. */
  function EnqueueCycle(next: nat, s: nat, sysFreqKHz: nat, memFreqKHz: nat): nat
    requires memFreqKHz > 0 && next >= 1
  {
    var m := MatchingMemToSys(next, sysFreqKHz, memFreqKHz);
    if m > s then m else s
  }

  /** The event ticks in the memory cycle it was scheduled for, exactly if that cycle is not over yet. */
  lemma TickLandsOnSchedule(next: nat, s: nat, sysFreqKHz: nat, memFreqKHz: nat)
    requires Accepted(sysFreqKHz, memFreqKHz) && next >= 1
    ensures SysToMem(EnqueueCycle(next, s, sysFreqKHz, memFreqKHz), sysFreqKHz, memFreqKHz) == next
       <==> next >= SysToMem(s, sysFreqKHz, memFreqKHz)
  {
    AcceptedRoundTrip(next, sysFreqKHz, memFreqKHz);
    var m := MatchingMemToSys(next, sysFreqKHz, memFreqKHz);
    if m > s {
      SysToMemMonotone(s, m, sysFreqKHz, memFreqKHz);
    } else {
      SysToMemMonotone(m, s, sysFreqKHz, memFreqKHz);
    }
  }
}

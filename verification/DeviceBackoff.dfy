/** Exponential backoff after failed polls. Instants are milliseconds of an ideal clock. */
module DeviceBackoff {

  const BACKOFF_BASE_SECS: nat := 2
  const BACKOFF_MAX_SECS: nat := 300
  const DEVICE_DOWN_THRESHOLD: nat := 5
  const U32_MAX: nat := 0xFFFF_FFFF
  const U64_MAX: nat := 0xFFFF_FFFF_FFFF_FFFF

  function Min(a: nat, b: nat): nat { if a < b then a else b }

  function Pow(b: nat, e: nat): nat {
    if e == 0 then 1 else b * Pow(b, e - 1)
  }

  // The delay after `failures` consecutive failures, with the source's 64-bit saturating power.
  function DelaySecs(failures: nat): nat {
    Min(Min(Pow(BACKOFF_BASE_SECS, failures), U64_MAX), BACKOFF_MAX_SECS)
  }

  function DelayMs(failures: nat): nat { 1000 * DelaySecs(failures) }

  // The saturation of the 64-bit power never shows, and the delay never shrinks.
  lemma {:induction false} DelayGrows(j: nat, k: nat)
    requires j <= k
    ensures DelaySecs(k) == Min(Pow(2, k), 300)
    ensures DelaySecs(j) <= DelaySecs(k)
    ensures Pow(2, j) <= Pow(2, k)
    decreases k
  {
    if j < k {
      DelayGrows(j, k - 1);
    }
  }

  datatype Backoff = Backoff(failures: nat, nextRetry: int, wasDown: bool) {
    function Succeeded(now: int): Backoff { this.(failures := 0, nextRetry := now) }

    function Failed(now: int): Backoff {
      var n := Min(failures + 1, U32_MAX);
      this.(failures := n, nextRetry := now + DelayMs(n))
    }

    predicate SkipsAt(now: int) { now < nextRetry }

    predicate IsDown() { failures >= DEVICE_DOWN_THRESHOLD }
  }

  class DeviceBackoff {
    var failures: nat
    var nextRetry: int
    var wasDown: bool

    function State(): Backoff
      reads this
    {
      Backoff(failures, nextRetry, wasDown)
    }

    constructor (now: int)
      ensures State() == Backoff(0, now, false)
    {
      failures, nextRetry, wasDown := 0, now, false;
    }

    method RecordSuccess(now: int)
      modifies this
      ensures State() == old(State()).Succeeded(now)
    {
      failures := 0;
      nextRetry := now;
    }

    method RecordFailure(now: int)
      modifies this
      ensures State() == old(State()).Failed(now)
    {
      failures := Min(failures + 1, U32_MAX);
      var delaySecs := Min(Min(Pow(BACKOFF_BASE_SECS, failures), U64_MAX), BACKOFF_MAX_SECS);
      nextRetry := now + 1000 * delaySecs;
    }
  }
}

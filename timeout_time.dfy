// The nanosecond arithmetic of src/timeout_list.rs: durations to and from
// `u64` nanoseconds, and nanoseconds to milliseconds.

module TimeoutTime {
  const NANOS_PER_MILLI: nat := 1_000_000
  const NANOS_PER_SEC: nat := 1_000_000_000

  /** 2^64; `u64::MAX` is U64 - 1. */
  const U64: nat := 0x1_0000_0000_0000_0000

  /** std::time::Duration: whole seconds (a `u64`) and the nanoseconds below
      one second. */
  datatype Duration = Duration(secs: nat, nanos: nat)

  predicate IsDuration(d: Duration)
  {
    d.secs < U64 && d.nanos < NANOS_PER_SEC
  }

  /** `u64::saturating_mul` and `u64::saturating_add` on `u64` operands. */
  function SaturatingMul(a: nat, b: nat): nat
  {
    if a * b < U64 then a * b else U64 - 1
  }

  function SaturatingAdd(a: nat, b: nat): nat
  {
    if a + b < U64 then a + b else U64 - 1
  }

  /** dur_to_ns. */
  function DurToNs(d: Duration): (ns: nat)
    ensures ns < U64
    ensures IsDuration(d) ==> ns <= d.secs * NANOS_PER_SEC + d.nanos
  {
    SaturatingAdd(SaturatingMul(d.secs, NANOS_PER_SEC), d.nanos)
  }

  /** The nanosecond count of a duration, capped at `u64::MAX` rather than
      wrapped. */
  lemma DurToNsSaturates(d: Duration)
    requires IsDuration(d)
    ensures var exact := d.secs * NANOS_PER_SEC + d.nanos;
            DurToNs(d) == if exact < U64 then exact else U64 - 1
  {
  }

  /** ns_to_dur: whole seconds and the nanoseconds left over. */
  function NsToDur(ns: nat): (d: Duration)
    requires ns < U64
    ensures IsDuration(d)
  {
    Duration(ns / NANOS_PER_SEC, ns % NANOS_PER_SEC)
  }

  /** Splitting nanoseconds into a duration loses nothing. */
  lemma NsToDurRoundTrip(ns: nat)
    requires ns < U64
    ensures DurToNs(NsToDur(ns)) == ns
  {
    var d := NsToDur(ns);
    assert d.secs * NANOS_PER_SEC + d.nanos == ns;
    assert d.secs * NANOS_PER_SEC <= ns;
  }

  /** A duration whose nanosecond count fits in a `u64` comes back from it
      unchanged. */
  lemma DurToNsRoundTrip(d: Duration)
    requires IsDuration(d) && d.secs * NANOS_PER_SEC + d.nanos < U64
    ensures NsToDur(DurToNs(d)) == d
  {
    var ns := d.secs * NANOS_PER_SEC + d.nanos;
    SecondsUnique(ns, d.secs, d.nanos);
  }

  lemma SecondsUnique(n: nat, q: nat, r: nat)
    requires r < NANOS_PER_SEC && n == q * NANOS_PER_SEC + r
    ensures n / NANOS_PER_SEC == q && n % NANOS_PER_SEC == r
  {
  }

  lemma MillisUnique(n: nat, q: nat, r: nat)
    requires r < NANOS_PER_MILLI && n == q * NANOS_PER_MILLI + r
    ensures n / NANOS_PER_MILLI == q && n % NANOS_PER_MILLI == r
  {
  }

  /** ns_to_ms as written: `(ns + NANOS_PER_MILLI - 1) / NANOS_PER_MILLI` in
      `u64`, whose addition wraps (as in a release build) near `u64::MAX`. */
  function NsToMsAsWritten(ns: nat): (ms: nat)
    ensures ms * NANOS_PER_MILLI < U64
  {
    ((ns + NANOS_PER_MILLI - 1) % U64) / NANOS_PER_MILLI
  }

  /** The rounded-up milliseconds, without the intermediate overflow. */
  function NsToMs(ns: nat): (ms: nat)
    ensures ms * NANOS_PER_MILLI >= ns
    ensures ms > 0 ==> (ms - 1) * NANOS_PER_MILLI < ns
  {
    ns / NANOS_PER_MILLI + (if ns % NANOS_PER_MILLI == 0 then 0 else 1)
  }

  /** The written formula is the ceiling wherever its addition does not
      overflow. */
  lemma NsToMsAgrees(ns: nat)
    requires ns + NANOS_PER_MILLI - 1 < U64
    ensures NsToMsAsWritten(ns) == NsToMs(ns)
  {
    var q := ns / NANOS_PER_MILLI;
    var r := ns % NANOS_PER_MILLI;
    if r == 0 {
      MillisUnique(ns + NANOS_PER_MILLI - 1, q, NANOS_PER_MILLI - 1);
    } else {
      MillisUnique(ns + NANOS_PER_MILLI - 1, q + 1, r - 1);
    }
  }

  /** `u64::MAX` nanoseconds come out as 0 milliseconds instead of
      18446744073710. */
  lemma NsToMsOverflows()
    ensures NsToMsAsWritten(U64 - 1) == 0
    ensures NsToMs(U64 - 1) == 18_446_744_073_710
  {
  }
}

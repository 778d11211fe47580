/**
 * Definitions shared by every module of the firmware model: bytes, an
 * Option type, and the embassy-time clock (`Instant`) measured in ticks.
 */
module Base {

  /** An unsigned 8-bit value (Rust `u8`). */
  type byte = b: int | 0 <= b < 256

  /** Rust's `Option<T>`. */
  datatype Option<T> = None | Some(value: T)

  /** Ticks of the embassy-time clock per second (its default tick rate). */
  const TICK_HZ: nat := 1_000_000

  /** `Instant::MAX`: the largest u64 tick count. */
  const INSTANT_MAX: nat := 0xFFFF_FFFF_FFFF_FFFF

  /** An embassy-time `Instant`, as a tick count. */
  type Instant = t: int | 0 <= t <= INSTANT_MAX

  /** The longest duration any core component adds to `Instant::now()`: one DHCP lease (a day). */
  const LONGEST_ADDED_SECS: nat := 60 * 60 * 24

  /**
   * `Instant::now()` is far enough from `Instant::MAX` that adding any
   * duration the firmware uses does not overflow (the clock would have to
   * run for about 584,000 years to break this).
   */
  predicate ClockInRange(now: Instant)
  {
    now + LONGEST_ADDED_SECS * TICK_HZ <= INSTANT_MAX
  }

  /** `Instant::as_secs`: whole seconds of a tick count, rounded down. */
  function AsSecs(t: Instant): nat
  {
    t / TICK_HZ
  }

  /** The bytes of an ASCII string literal (topic suffixes such as "/ctrl"). */
  function AsciiBytes(s: string): (r: seq<byte>)
    requires forall i :: 0 <= i < |s| ==> s[i] as int < 0x80
    ensures |r| == |s| && forall i :: 0 <= i < |s| ==> r[i] == s[i] as int
  {
    seq(|s|, i requires 0 <= i < |s| => s[i] as int)
  }
}

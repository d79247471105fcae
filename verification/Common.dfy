/** Shared vocabulary: optional values and the clock units used by every component. */
module Common {
  datatype Option<+T> = None | Some(value: T)

  type byte = b: int | 0 <= b < 256
  type bytes = seq<byte>

  /** The decimal digit of a number below ten. */
  function Digit(d: nat): char
    requires d < 10
  {
    '0' + d as char
  }

  /** Nanoseconds in one second and in one millisecond: clock readings are integers in nanoseconds. */
  const SECOND := 1_000_000_000
  const MILLISECOND := 1_000_000

  /** The Unix second of a clock reading, as time.Time.Unix truncates it. */
  function UnixSecond(t: int): (r: int)
    ensures r * SECOND <= t < (r + 1) * SECOND
  {
    t / SECOND
  }

  /** The larger of two integers. */
  function Max(a: int, b: int): (r: int)
    ensures r >= a && r >= b && (r == a || r == b)
  {
    if a < b then b else a
  }
}

/** Values shared by the account store and the document store: identifiers, bytes and instants. */
module Primitives {

  /** A UUID, as its 128-bit value. */
  newtype Uuid = x: int | 0 <= x < 0x1_0000_0000_0000_0000_0000_0000_0000_0000

  /** One byte of an opaque blob. */
  newtype Byte = x: int | 0 <= x < 256

  /** An instant of `DateTime<Utc>`, as nanoseconds since the Unix epoch (negative before it). */
  type Timestamp = int

  const NanosPerMilli: int := 1_000_000

  /** chrono's `from_timestamp_millis`: the instant exactly `ms` milliseconds after the epoch. */
  function FromTimestampMillis(ms: int): (t: Timestamp)
    ensures t % NanosPerMilli == 0
  {
    ms * NanosPerMilli
  }

  /**
   * chrono's `timestamp_millis`: the whole milliseconds since the epoch, rounded toward
   * negative infinity, so the instant lies in the millisecond that starts at the result.
   */
  function TimestampMillis(t: Timestamp): (ms: int)
    ensures FromTimestampMillis(ms) <= t < FromTimestampMillis(ms) + NanosPerMilli
  {
    t / NanosPerMilli
  }

  /** Converting a whole millisecond count to an instant and back gives the count again. */
  lemma MillisRoundTrip(ms: int)
    ensures TimestampMillis(FromTimestampMillis(ms)) == ms
  {
  }
}

/** Basic types shared by the consumer's bookkeeping: 32-bit sequence
    numbers, simulator time as an integer tick count, the `SeqTimeout`
    record and a small Option. */
module Types {

  /** One past the largest `uint32_t`. */
  const UINT32_LIMIT: int := 0x1_0000_0000

  /** The largest `uint32_t`. */
  const UINT32_MAX: int := UINT32_LIMIT - 1

  /** A `uint32_t`, as used for sequence numbers and `m_seqMax`. */
  type Uint32 = x: int | 0 <= x < UINT32_LIMIT

  /** A sequence number: the trailing name component of an Interest. */
  type SeqNo = Uint32

  /** Simulator time (ns-3 `Time`) as an integer tick count. */
  type Time = int

  /** One record of the timeout container: a sequence number and the tick
      at which its Interest was sent. */
  datatype SeqTimeout = SeqTimeout(seqNo: SeqNo, time: Time)

  datatype Option<+T> = None | Some(value: T)
}

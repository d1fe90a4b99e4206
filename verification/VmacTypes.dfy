/** Machine integers, limits and message types shared by the V-MAC models. */
module VmacTypes {
  const WINDOW: nat := 700     // receiver window slots
  const WINDOW_TX: nat := 500  // sender ring slots
  const HOLES_MAX: nat := 40   // holes in one DACK
  const MAX_RETX: nat := 20    // frames retransmitted for one DACK
  const POINTER_SIZE: nat := 8 // bytes of a pointer
  const U8_LIMIT: nat := 0x100
  const U16_LIMIT: nat := 0x1_0000
  const U32_LIMIT: nat := 0x1_0000_0000
  const U64_LIMIT: nat := 0x1_0000_0000_0000_0000

  type u8 = x: int | 0 <= x < U8_LIMIT
  type u16 = x: int | 0 <= x < U16_LIMIT
  type u32 = x: int | 0 <= x < U32_LIMIT
  type u64 = x: int | 0 <= x < U64_LIMIT

  datatype Option<+T> = None | Some(value: T)

  /** A gap reported by a DACK: the sequence numbers in [le, re). */
  datatype Hole = Hole(le: u16, re: u16)

  /** A data frame: the sequence number of its header and the bytes behind it. */
  datatype Frame = Frame(seqno: u16, payload: seq<u8>)

  /** The first n elements, or all of them when there are fewer. */
  function Take<T>(s: seq<T>, n: nat): (t: seq<T>)
    ensures t <= s && |t| == if |s| < n then |s| else n
  {
    if |s| < n then s else s[..n]
  }

  lemma TakeCons<T>(x: T, s: seq<T>, n: nat)
    requires n > 0
    ensures Take([x] + s, n) == [x] + Take(s, n - 1)
  {
  }

  function Max(a: int, b: int): int {
    if a < b then b else a
  }

  function Min(a: int, b: int): int {
    if a < b then a else b
  }
}

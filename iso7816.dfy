/** Stock Option type for values a call may or may not produce. */
module Wrappers {
  datatype Option<+T> = None | Some(value: T)
}

/**
 * The slice of ISO/IEC 7816-4 and of the OpenSC transport that the ApolloOS
 * driver touches: bytes, a short case-2 command (INS, P1, P2, Le), what the
 * transport reports back, and how a receive buffer looks after an exchange.
 */
module Iso7816 {
  import opened Wrappers

  newtype Byte = x: int | 0 <= x < 256

  /** A C `int` result code, as `sc_transmit_apdu` and friends return it. */
  type Int32 = x: int | -0x8000_0000 <= x < 0x8000_0000

  /** Modulus of `size_t` (64-bit) and of `unsigned int` (32-bit). */
  const SizeMod: nat := 0x1_0000_0000_0000_0000
  const UIntMod: nat := 0x1_0000_0000

  /** SC_SUCCESS. */
  const Success: int := 0

  /** READ BINARY (section 7.2.3 of ISO/IEC 7816-4:2005) and GET DATA (section 7.4.2). */
  const InsReadBinary: Byte := 0xB0
  const InsGetData: Byte := 0xCA

  /** A short case-2 command: no command data, Le bytes expected back. */
  datatype Command = Command(ins: Byte, p1: Byte, p2: Byte, le: nat)

  /**
   * What one exchange gives back: the transport's own result (negative when
   * the exchange did not complete), the two status bytes and the bytes the
   * card sent.
   */
  datatype Response = Response(transport: Int32, sw1: Byte, sw2: Byte, data: seq<Byte>)

  function Min(a: nat, b: nat): (m: nat)
    ensures m <= a && m <= b && (m == a || m == b)
  {
    if a <= b then a else b
  }

  /**
   * The caller's receive buffer after an exchange: the transport writes the
   * bytes the card sent, at most as many as the buffer holds, and leaves the
   * rest of the buffer as it was.
   */
  function Received(data: seq<Byte>, before: seq<Byte>): (r: seq<Byte>)
    ensures |r| == |before|
    ensures forall i :: 0 <= i < |r| ==> r[i] == if i < |data| then data[i] else before[i]
  {
    var n := Min(|data|, |before|);
    data[..n] + before[n..]
  }

  /**
   * The offset a READ BINARY command addresses: when bit 8 of P1 is 0, P1-P2
   * is a 15-bit offset; when it is 1, bits 5-1 of P1 name a short EF
   * identifier and P2 alone is an offset into that EF, so there is no 15-bit
   * P1-P2 offset.
   */
  function OffsetOf(c: Command): (r: Option<nat>)
    ensures r.Some? <==> c.p1 < 0x80
    ensures r.Some? ==> r.value < 0x8000
  {
    if c.p1 < 0x80 then Some(c.p1 as nat * 256 + c.p2 as nat) else None
  }
}

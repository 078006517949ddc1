/** 64-bit words as pairs of 32-bit halves, and the integer maps of the wire format. */
module Words {
  import opened Js

  /** The 64-bit number a pair of halves stands for. */
  function Join(lo: uint32, hi: uint32): (n: nat)
    ensures n < TWO_TO_64
  {
    lo + hi * TWO_TO_32
  }

  /** Two's complement: the unsigned 64-bit number with the same bits as the signed `v`. */
  function SignExtend(v: int32): (n: nat)
    ensures n < TWO_TO_64
  {
    if v >= 0 then v else v + TWO_TO_64
  }

  /** The zigzag map of the guide's section "Signed Integers": 0, -1, 1, -2, ... to 0, 1, 2, 3, ... */
  function Zigzag(v: int): nat {
    if v >= 0 then 2 * v else -2 * v - 1
  }

  /** Little-endian bytes of a 32-bit word. */
  function Fixed32(v: uint32): (bs: seq<byte>)
    ensures |bs| == 4
  {
    [v % 256, v / 0x100 % 256, v / 0x1_0000 % 256, v / 0x100_0000 % 256]
  }

  function Low(n: nat): uint32 { n % TWO_TO_32 }

  function High(n: nat): uint32
    requires n < TWO_TO_64
  {
    n / TWO_TO_32
  }

  lemma JoinHalves(n: nat)
    requires n < TWO_TO_64
    ensures Join(Low(n), High(n)) == n
  {
  }

  /** The signed number whose two's complement is `n`. */
  function Signed(n: nat): int
    requires n < TWO_TO_64
  {
    if n < TWO_TO_63 then n else n - TWO_TO_64
  }

  /** The inverse of the zigzag map. */
  function Unzigzag(n: nat): int {
    if n % 2 == 0 then n / 2 else -(n / 2) - 1
  }

  lemma UnzigzagZigzag(v: int)
    ensures Unzigzag(Zigzag(v)) == v
  {
  }
}

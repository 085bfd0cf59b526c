/** Scalars are carried in two 32-bit words and a byte size. */
module Scalars {
  import opened McapiTypes

  type u64 = x: nat | x < 0x1_0000_0000_0000_0000

  datatype Packed = Packed(scalar0: u32, scalar1: u32, size: u32)

  /** The words sent for a data word of `size` bytes; unknown sizes send zeros. */
  function Pack(dataword: u64, size: u32): Packed {
    match size
    case 1 => Packed(dataword % 0x100, 0, size)
    case 2 => Packed(dataword % 0x1_0000, 0, size)
    case 4 => Packed(dataword % UINT32_RANGE, 0, size)
    case 8 => Packed(dataword / UINT32_RANGE % UINT32_RANGE, dataword % UINT32_RANGE, size)
    case _ => Packed(0, 0, size)
  }

  /** The return value of a receive expecting `size` bytes, and the data word it wrote, if any: a word of the
      wrong size is written and then refused. */
  function Unpack(p: Packed, size: u32): (bool, Option<u64>) {
    if p.size == 1 || p.size == 2 || p.size == 4 then (size == p.size, Some(p.scalar0))
    else if p.size == 8 then (size == p.size, Some(p.scalar0 * UINT32_RANGE + p.scalar1))
    else (false, None)
  }

  function Pow256(n: nat): nat {
    if n == 0 then 1 else 256 * Pow256(n - 1)
  }

  lemma Powers()
    ensures Pow256(1) == 0x100 && Pow256(2) == 0x1_0000 && Pow256(4) == UINT32_RANGE
    ensures Pow256(8) == UINT32_RANGE * UINT32_RANGE
  {
    assert Pow256(3) == 256 * Pow256(2);
    assert Pow256(5) == 256 * Pow256(4);
    assert Pow256(6) == 256 * Pow256(5);
    assert Pow256(7) == 256 * Pow256(6);
  }

  /** What travels: an 8-byte word in two halves, the high one first; a shorter one in the first word alone. */
  lemma WordsSent(dataword: u64, size: u32)
    ensures var p := Pack(dataword, size);
            && p.size == size
            && (size == 8 ==> 0x1_0000_0000 * p.scalar0 + p.scalar1 == dataword)
            && (size == 1 || size == 2 || size == 4 ==> p.scalar0 == dataword % Pow256(size) && p.scalar1 == 0)
            && (size != 1 && size != 2 && size != 4 && size != 8 ==> p.scalar0 == 0 && p.scalar1 == 0)
  {
    Powers();
    assert dataword / UINT32_RANGE < UINT32_RANGE;
  }

  /** If the driver delivers both words and the size unchanged, a receive succeeds exactly when it expects a
      supported size and that size was sent.  The sent word modulo 256^size is written whenever the sent size
      is supported, even if the receive then fails. */
  lemma ReceiveUndoesSend(dataword: u64, sent: u32, expected: u32)
    ensures var (ok, data) := Unpack(Pack(dataword, sent), expected);
            && (ok <==> expected == sent && (sent == 1 || sent == 2 || sent == 4 || sent == 8))
            && data == if sent == 1 || sent == 2 || sent == 4 || sent == 8 then Some(dataword % Pow256(sent)) else None
  {
    Powers();
    assert dataword / UINT32_RANGE < UINT32_RANGE;
  }
}

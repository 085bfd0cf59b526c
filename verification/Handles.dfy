/** Endpoint handles: a domain, a node and a port packed into 32 bits.  Masking with 2^k - 1 is written
    as the remainder modulo 2^k, a shift by k as multiplication or division by 2^k, and the bitwise "or"
    of the three disjoint bit ranges as a sum. */
module Handles {
  import opened McapiTypes

  const DOMAIN_UNIT: nat := 0x100_0000  // 1 << MCAPI_DOMAIN_SHIFT
  const NODE_UNIT: nat := 0x1_0000      // 1 << MCAPI_NODE_SHIFT
  const BYTE_RANGE: nat := 0x100        // MCAPI_DOMAIN_MASK + 1 and MCAPI_NODE_MASK + 1
  const PORT_RANGE: nat := 0x1_0000     // MCAPI_PORT_MASK + 1

  datatype Fields = Fields(domain: u16, node: u16, port: u16)

  function Encode(f: Fields): u32 {
    f.domain % BYTE_RANGE * DOMAIN_UNIT + f.node % BYTE_RANGE * NODE_UNIT + f.port % PORT_RANGE
  }

  function Decode(handle: u32): Fields {
    Fields(handle / DOMAIN_UNIT % BYTE_RANGE, handle / NODE_UNIT % BYTE_RANGE, handle % PORT_RANGE)
  }

  /** The conversion of a `uint32_t` argument to a `uint16_t` parameter. */
  function Low16(x: u32): u16 {
    x % UINT16_RANGE
  }

  /** The handle every endpoint-producing call writes: the domain is always 0. */
  function HandleOf(node: u32, port: u32): u32 {
    Encode(Fields(0, Low16(node), Low16(port)))
  }

  /** What survives packing: the low byte of domain and node, and the whole port. */
  function Masked(f: Fields): Fields {
    Fields(f.domain % BYTE_RANGE, f.node % BYTE_RANGE, f.port)
  }

  /** The layout: the port in the low 16 bits, the node's low byte in the next 8, the domain's in the top 8. */
  lemma Layout(f: Fields)
    ensures Encode(f) == 0x100_0000 * (f.domain % 0x100) + 0x1_0000 * (f.node % 0x100) + f.port
    ensures Encode(f) % 0x1_0000 == f.port
    ensures Encode(f) / 0x1_0000 % 0x100 == f.node % 0x100
    ensures Encode(f) / 0x100_0000 == f.domain % 0x100
  {
  }

  /** Decoding undoes encoding exactly for domains and nodes below 256; every port survives. */
  lemma DecodeUndoesEncode(f: Fields)
    ensures Decode(Encode(f)) == Masked(f)
    ensures Decode(Encode(f)) == f <==> f.domain < 256 && f.node < 256
  {
    var h := Encode(f);
    assert h / DOMAIN_UNIT == f.domain % BYTE_RANGE;
    assert h / NODE_UNIT == f.domain % BYTE_RANGE * BYTE_RANGE + f.node % BYTE_RANGE;
  }

  /** Encoding undoes decoding for every 32-bit handle. */
  lemma EncodeUndoesDecode(handle: u32)
    ensures Encode(Decode(handle)) == handle
    ensures Decode(handle).domain < 256 && Decode(handle).node < 256
  {
    assert handle / NODE_UNIT / BYTE_RANGE == handle / DOMAIN_UNIT;
  }

  /** Two field triples share a handle exactly when they agree on what survives packing. */
  lemma EncodeInjective(f: Fields, g: Fields)
    ensures Encode(f) == Encode(g) <==> Masked(f) == Masked(g)
  {
    DecodeUndoesEncode(f);
    DecodeUndoesEncode(g);
  }

  lemma LowParts(node: u32, port: u32)
    ensures Masked(Fields(0, Low16(node), Low16(port))) == Fields(0, node % BYTE_RANGE, Low16(port))
    ensures Low16(port) == port <==> port < PORT_RANGE
  {
  }

  /** A handle made for (node, port) decodes to domain 0, the node's low byte and the port's low half;
      so it names the port it was made for exactly when that port is below 65536. */
  lemma HandleOfDecodes(node: u32, port: u32)
    ensures Decode(HandleOf(node, port)) == Fields(0, node % BYTE_RANGE, Low16(port))
    ensures Decode(HandleOf(node, port)).port == port <==> port < PORT_RANGE
    ensures HandleOf(node, port) == 0x1_0000 * (node % 0x100) + port % 0x1_0000
  {
    LowParts(node, port);
    DecodeUndoesEncode(Fields(0, Low16(node), Low16(port)));
  }
}

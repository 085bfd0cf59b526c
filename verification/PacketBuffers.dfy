/** Releasing a packet buffer by its address.  Packet buffers sit side by side in a pool and share their
    numbering with the request slots, so the address must give back the slot the buffer was reserved under. */
module PacketBuffers {
  import opened McapiTypes
  import opened RequestPool

  const POOL_BYTES: nat := MCAPI_MAX_BUFFERS * MCAPI_MAX_MSG_SIZE

  function BufferAddress(base: nat, slot: nat): nat {
    base + slot * MCAPI_MAX_MSG_SIZE
  }

  /** The slot computed from an address: masked down to a multiple of the message size, less the base in
      32-bit arithmetic, divided by the message size. */
  function SlotOf(base: u32, address: u32): nat {
    (address - address % MCAPI_MAX_MSG_SIZE - base) % UINT32_RANGE / MCAPI_MAX_MSG_SIZE
  }

  /** The slot a free call goes on to release, if its range check accepts the address; the check also admits
      the first address past the pool. */
  function FreedSlot(base: u32, address: u32): Option<nat> {
    if base <= address <= base + POOL_BYTES then Some(SlotOf(base, address)) else None
  }

  ghost predicate FitsInMemory(base: nat) {
    base + POOL_BYTES < UINT32_RANGE
  }

  /** With an aligned base every address inside a buffer recovers that buffer's slot. */
  lemma InteriorAddressRecovers(base: u32, slot: nat, offset: nat)
    requires FitsInMemory(base) && base % MCAPI_MAX_MSG_SIZE == 0
    requires slot < MCAPI_MAX_BUFFERS && offset < MCAPI_MAX_MSG_SIZE
    ensures FreedSlot(base, BufferAddress(base, slot) + offset) == Some(slot)
  {
    var address := BufferAddress(base, slot) + offset;
    assert address % MCAPI_MAX_MSG_SIZE == offset;
  }

  /** With any other base a buffer's start address names the slot before its own, and the first buffer's
      names no slot at all. */
  lemma MisalignedBaseShifts(base: u32, slot: nat)
    requires FitsInMemory(base) && base % MCAPI_MAX_MSG_SIZE != 0 && slot < MCAPI_MAX_BUFFERS
    ensures FreedSlot(base, BufferAddress(base, slot)) ==
            Some(if slot == 0 then UINT32_RANGE / MCAPI_MAX_MSG_SIZE - 1 else slot - 1)
  {
    var address := BufferAddress(base, slot);
    assert address % MCAPI_MAX_MSG_SIZE == base % MCAPI_MAX_MSG_SIZE;
  }

  /** Start addresses recover their slots, all of them, exactly when the pool base is aligned. */
  lemma StartAddressesRecoverIffAligned(base: u32)
    requires FitsInMemory(base)
    ensures (forall slot: nat :: slot < MCAPI_MAX_BUFFERS ==> FreedSlot(base, BufferAddress(base, slot)) == Some(slot))
            <==> base % MCAPI_MAX_MSG_SIZE == 0
  {
    if base % MCAPI_MAX_MSG_SIZE == 0 {
      forall slot: nat | slot < MCAPI_MAX_BUFFERS
        ensures FreedSlot(base, BufferAddress(base, slot)) == Some(slot)
      {
        InteriorAddressRecovers(base, slot, 0);
      }
    } else {
      MisalignedBaseShifts(base, 0);
      assert FreedSlot(base, BufferAddress(base, 0)) != Some(0);
    }
  }

  /** With an aligned base, an address is turned into an existing slot exactly when it lies in the pool; the one
      address past it is accepted too, and names the slot after the last. */
  lemma AcceptedAddresses(base: u32, address: u32)
    requires FitsInMemory(base) && base % MCAPI_MAX_MSG_SIZE == 0
    ensures FreedSlot(base, address).Some? && FreedSlot(base, address).value < MCAPI_MAX_BUFFERS <==>
            base <= address < base + POOL_BYTES
    ensures FreedSlot(base, address) == Some(MCAPI_MAX_BUFFERS) <==> address == base + POOL_BYTES
    ensures FreedSlot(base, address).None? <==> address < base || address > base + POOL_BYTES
  {
    if base <= address < base + POOL_BYTES {
      var slot, offset := (address - base) / MCAPI_MAX_MSG_SIZE, (address - base) % MCAPI_MAX_MSG_SIZE;
      InteriorAddressRecovers(base, slot, offset);
      assert address == BufferAddress(base, slot) + offset;
    }
  }

  /** Receiving a packet and freeing its buffer by address restores the free list exactly when two slots were
      free, whatever address inside the buffer is given. */
  lemma PacketRoundTrip(db: Db, base: u32, offset: nat)
    requires PoolInv(db) && db.max == MCAPI_MAX_BUFFERS && !Full(db)
    requires FitsInMemory(base) && base % MCAPI_MAX_MSG_SIZE == 0 && offset < MCAPI_MAX_MSG_SIZE
    ensures var (slot, mid) := Reserve(db);
            && slot.Some? && slot.value < MCAPI_MAX_BUFFERS && Shaped(mid) && mid.max == db.max
            && FreedSlot(base, BufferAddress(base, slot.value) + offset) == slot
            && (SameFreeList(db, Remove(mid, slot.value)) <==> db.count + 1 < db.max)
  {
    ReserveThenRemove(db);
    InteriorAddressRecovers(base, Reserve(db).0.value, offset);
  }
}

/** The request table and the free list threaded through it by next_index: two representations of
    "this slot is free" (the chain and the valid flags) that must always agree. */
module RequestPool {
  import opened McapiTypes

  datatype Kind = Other | OpenPktChan | OpenSclChan | Send | Recv | GetEndpt

  datatype Request = Request(
    valid: bool,
    size: u32,
    kind: Kind,
    buffer: u32,      // an address; 0 is NULL
    epNode: u32,
    epPort: u32,
    epDomain: u32,
    completed: bool,
    cancelled: bool,
    handle: u32,
    epEndpoint: u32,
    payload: u32)

  const ZERO_REQUEST: Request := Request(false, 0, Other, 0, 0, 0, 0, false, false, 0, 0, 0)

  datatype Db = Db(requests: seq<Request>, next: seq<int>, head: int, count: int, max: int)

  /** The sizes and index ranges every state of the table has. */
  ghost predicate Shaped(db: Db) {
    && 1 <= |db.requests| <= UINT16_RANGE
    && |db.requests| == |db.next| == db.max
    && -1 <= db.head < db.max
    && forall i :: 0 <= i < db.max ==> -1 <= db.next[i] < db.max
  }

  ghost function ElementOrEnd(chain: seq<int>, k: nat): int {
    if k < |chain| then chain[k] else -1
  }

  ghost predicate Linked(db: Db, chain: seq<int>, k: nat)
    requires k < |chain| && 0 <= chain[k] < |db.next|
  {
    db.next[chain[k]] == ElementOrEnd(chain, k + 1)
  }

  ghost predicate AllFree(db: Db, chain: seq<int>)
    requires Shaped(db)
  {
    forall k :: 0 <= k < |chain| ==> 0 <= chain[k] < db.max && !db.requests[chain[k]].valid
  }

  ghost predicate CoversFree(db: Db, chain: seq<int>)
    requires Shaped(db)
  {
    forall r :: 0 <= r < db.max && !db.requests[r].valid ==> r in chain
  }

  ghost predicate NoRepeats(chain: seq<int>) {
    forall j, k :: 0 <= j < k < |chain| ==> chain[j] != chain[k]
  }

  ghost predicate AllLinked(db: Db, chain: seq<int>)
    requires Shaped(db) && AllFree(db, chain)
  {
    forall k :: 0 <= k < |chain| ==> Linked(db, chain, k)
  }

  /** `chain` is the walk from the head through next_index: it ends at -1, has no repeats, visits exactly the
      slots whose valid flag is off, and is as long as the number of slots not counted as used. */
  ghost predicate FreeChain(db: Db, chain: seq<int>)
    requires Shaped(db)
  {
    && |chain| == db.max - db.count
    && AllFree(db, chain) && CoversFree(db, chain) && NoRepeats(chain)
    && db.head == ElementOrEnd(chain, 0)
    && AllLinked(db, chain)
  }

  ghost predicate PoolInv(db: Db) {
    Shaped(db) && exists chain :: FreeChain(db, chain)
  }

  predicate Full(db: Db) {
    db.count >= db.max
  }

  /** Everything the allocator looks at: head, counters, links and valid flags. */
  ghost predicate SameFreeList(a: Db, b: Db) {
    && a.next == b.next && a.head == b.head && a.count == b.count && a.max == b.max
    && |a.requests| == |b.requests|
    && forall r :: 0 <= r < |a.requests| ==> a.requests[r].valid == b.requests[r].valid
  }

  /** The table after initialisation of zeroed memory. */
  function InitialDb(size: nat): Db
    requires 1 <= size <= UINT16_RANGE
  {
    Db(seq(size, _ => ZERO_REQUEST), seq(size, i => if i + 1 < size then i + 1 else -1), 0, 0, size)
  }

  function Reserve(db: Db): (Option<nat>, Db)
    requires Shaped(db)
  {
    if db.head != -1 then
      var r := db.head;
      (Some(r), TakeHead(db))
    else
      (None, db)
  }

  function Remove(db: Db, r: nat): Db
    requires Shaped(db) && r < db.max
  {
    if db.count < db.max then
      db.(requests := db.requests[r := db.requests[r].(valid := false)],
          next := db.next[r := db.head], head := r, count := db.count - 1)
    else
      db
  }

  lemma InitialChain(size: nat)
    requires 1 <= size <= UINT16_RANGE
    ensures PoolInv(InitialDb(size))
    ensures FreeChain(InitialDb(size), seq(size, i => i))
    ensures forall r :: 0 <= r < size ==>
              InitialDb(size).requests[r] == Request(false, 0, Other, 0, 0, 0, 0, false, false, 0, 0, 0)
  {
    var db := InitialDb(size);
    var chain := seq(size, i => i);
    forall r | 0 <= r < db.max ensures r in chain {
      assert chain[r] == r;
    }
    assert FreeChain(db, chain);
  }

  /** The chain is determined by the head and the links. */
  lemma ChainUnique(db: Db, a: seq<int>, b: seq<int>)
    requires Shaped(db) && FreeChain(db, a) && FreeChain(db, b)
    ensures a == b
  {
    forall k | 0 <= k < |a| ensures a[k] == b[k] {
      ChainsAgree(db, a, b, k);
    }
  }

  lemma {:induction false} ChainsAgree(db: Db, a: seq<int>, b: seq<int>, k: nat)
    requires Shaped(db) && FreeChain(db, a) && FreeChain(db, b) && k < |a|
    ensures a[k] == b[k]
  {
    if k > 0 {
      ChainsAgree(db, a, b, k - 1);
      assert Linked(db, a, k - 1) && Linked(db, b, k - 1);
    }
  }

  /** The table after its head slot was taken. */
  function TakeHead(db: Db): Db
    requires Shaped(db) && db.head != -1
  {
    db.(requests := db.requests[db.head := db.requests[db.head].(valid := true)],
        head := db.next[db.head], count := db.count + 1)
  }

  lemma TakenAllFree(db: Db, chain: seq<int>)
    requires Shaped(db) && FreeChain(db, chain) && chain != []
    ensures Shaped(TakeHead(db)) && AllFree(TakeHead(db), chain[1..]) && NoRepeats(chain[1..])
  {
    forall k | 0 <= k < |chain| - 1 ensures chain[1..][k] == chain[k + 1] != chain[0] {
    }
  }

  lemma TakenCoversFree(db: Db, chain: seq<int>)
    requires Shaped(db) && FreeChain(db, chain) && chain != [] && Shaped(TakeHead(db))
    ensures CoversFree(TakeHead(db), chain[1..])
  {
    forall r | 0 <= r < db.max && !TakeHead(db).requests[r].valid ensures r in chain[1..] {
      var k :| 0 <= k < |chain| && chain[k] == r;
      assert chain[1..][k - 1] == r;
    }
  }

  lemma TakenLinked(db: Db, chain: seq<int>)
    requires Shaped(db) && FreeChain(db, chain) && chain != []
    requires Shaped(TakeHead(db)) && AllFree(TakeHead(db), chain[1..])
    ensures TakeHead(db).head == ElementOrEnd(chain[1..], 0) && AllLinked(TakeHead(db), chain[1..])
  {
    assert Linked(db, chain, 0);
    forall k | 0 <= k < |chain| - 1 ensures Linked(TakeHead(db), chain[1..], k) {
      assert Linked(db, chain, k + 1);
    }
  }

  /** Reserving takes the first slot of the chain, and fails exactly when the chain is empty. */
  lemma ReserveChain(db: Db, chain: seq<int>)
    requires Shaped(db) && FreeChain(db, chain)
    ensures var (id, after) := Reserve(db);
            Shaped(after) &&
            if chain == [] then id.None? && after == db
            else id == Some(chain[0]) && FreeChain(after, chain[1..])
  {
    if chain != [] {
      TakenAllFree(db, chain);
      TakenCoversFree(db, chain);
      TakenLinked(db, chain);
    }
  }

  /** Releasing a used slot puts it at the front of the chain, unless the pool is full. */
  lemma RemoveChain(db: Db, chain: seq<int>, r: nat)
    requires Shaped(db) && FreeChain(db, chain) && r < db.max && db.requests[r].valid
    ensures Shaped(Remove(db, r))
    ensures if chain == [] then Remove(db, r) == db else FreeChain(Remove(db, r), [r] + chain)
  {
    if chain != [] {
      var after := Remove(db, r);
      var longer := [r] + chain;
      forall s | 0 <= s < after.max && !after.requests[s].valid ensures s in longer {
        assert s == r || s in chain;
      }
      forall k | 0 <= k < |longer|
        ensures Linked(after, longer, k)
      {
        if k > 0 {
          assert longer[k] == chain[k - 1] != r;
          assert Linked(db, chain, k - 1);
        }
      }
    }
  }

  /** A slot is handed out exactly when the pool is not full, and it was free before. */
  lemma ReserveOutcome(db: Db)
    requires PoolInv(db)
    ensures PoolInv(Reserve(db).1)
    ensures 0 <= db.count <= db.max
    ensures Reserve(db).0.None? <==> Full(db)
    ensures Reserve(db).0.Some? ==>
              var id := Reserve(db).0.value;
              && id < db.max && !db.requests[id].valid
              && Reserve(db).1.requests == db.requests[id := db.requests[id].(valid := true)]
              && Reserve(db).1.next == db.next
  {
    var chain :| FreeChain(db, chain);
    ReserveChain(db, chain);
    ChainBounded(db, chain);
  }

  /** No chain is longer than the table, because it does not repeat itself. */
  lemma ChainBounded(db: Db, chain: seq<int>)
    requires Shaped(db) && FreeChain(db, chain)
    ensures |chain| <= db.max
  {
    DistinctBounded(chain, db.max);
  }

  lemma {:induction false} DistinctBounded(s: seq<int>, n: nat)
    requires forall k :: 0 <= k < |s| ==> 0 <= s[k] < n
    requires NoRepeats(s)
    ensures |s| <= n
    decreases n
  {
    if s == [] {
    } else {
      assert 0 <= s[0] < n;
      if n - 1 in s {
        var k :| 0 <= k < |s| && s[k] == n - 1;
        DistinctBounded(s[..k] + s[k + 1..], n - 1);
      } else {
        DistinctBounded(s, n - 1);
      }
    }
  }

  ghost function UpTo(n: nat): (s: set<int>)
    ensures forall r :: r in s <==> 0 <= r < n
    ensures |s| == n
  {
    if n == 0 then {} else UpTo(n - 1) + {n - 1}
  }

  ghost function Elements(s: seq<int>): set<int> {
    set x | x in s
  }

  lemma {:induction false} DistinctSize(s: seq<int>)
    requires NoRepeats(s)
    ensures |Elements(s)| == |s|
  {
    if s == [] {
    } else {
      var last := |s| - 1;
      DistinctSize(s[..last]);
      assert Elements(s) == Elements(s[..last]) + {s[last]};
    }
  }

  ghost function UsedSlots(db: Db): set<int>
    requires Shaped(db)
  {
    set r | 0 <= r < db.max && db.requests[r].valid
  }

  /** The counter is the number of slots whose valid flag is on. */
  lemma CountIsUsedSlots(db: Db)
    requires PoolInv(db)
    ensures |UsedSlots(db)| == db.count
  {
    var chain :| FreeChain(db, chain);
    assert UpTo(db.max) - Elements(chain) == UsedSlots(db);
    assert Elements(chain) <= UpTo(db.max);
    DistinctSize(chain);
  }

  /** Releasing a used slot succeeds exactly when the pool is not full. */
  lemma RemoveOutcome(db: Db, r: nat)
    requires PoolInv(db) && r < db.max && db.requests[r].valid
    ensures PoolInv(Remove(db, r))
    ensures Remove(db, r).requests[r].valid <==> Full(db)
    ensures Full(db) ==> Remove(db, r) == db
    ensures !Full(db) ==>
              && Remove(db, r).requests == db.requests[r := db.requests[r].(valid := false)]
              && forall k :: 0 <= k < db.max && k != r ==> Remove(db, r).next[k] == db.next[k]
  {
    var chain :| FreeChain(db, chain);
    RemoveChain(db, chain, r);
  }

  /** The invariant reads nothing of a request but its valid flag. */
  lemma SameFreeListKeepsInv(a: Db, b: Db)
    requires PoolInv(a) && SameFreeList(a, b)
    ensures PoolInv(b)
  {
    var chain :| FreeChain(a, chain);
    forall k | 0 <= k < |chain| ensures Linked(b, chain, k) {
      assert Linked(a, chain, k);
    }
    assert FreeChain(b, chain);
  }

  /** Reserve followed by remove restores head, count, every link and every flag exactly when at least
      two slots were free; with one free slot the pool has become full and the release is refused. */
  lemma ReserveThenRemove(db: Db)
    requires PoolInv(db) && !Full(db)
    ensures var (id, mid) := Reserve(db);
            && id.Some? && Shaped(mid) && id.value < mid.max
            && (SameFreeList(db, Remove(mid, id.value)) <==> db.count + 1 < db.max)
            && (db.count + 1 >= db.max ==> Remove(mid, id.value) == mid)
  {
    var chain :| FreeChain(db, chain);
    ReserveChain(db, chain);
    var (id, mid) := Reserve(db);
    var after := Remove(mid, id.value);
    if db.count + 1 < db.max {
      assert after.next == db.next;
    }
  }

  /** Removing commutes with changes to anything but the free list. */
  lemma RemoveOfSame(a: Db, b: Db, r: nat)
    requires Shaped(a) && Shaped(b) && SameFreeList(a, b) && r < a.max
    ensures SameFreeList(Remove(a, r), Remove(b, r))
  {
  }

  /** Initialisation rebuilds the list and the counters and leaves the records, valid flags included. */
  function Reinitialised(db: Db): Db
    requires Shaped(db)
  {
    db.(next := InitialDb(db.max).next, head := 0, count := 0)
  }

  /** So running it again is sound exactly when no request is outstanding. */
  lemma ReinitialisedSound(db: Db)
    requires Shaped(db)
    ensures Reinitialised(db) == InitialDb(db.max).(requests := db.requests)
    ensures PoolInv(Reinitialised(db)) <==> forall r :: 0 <= r < db.max ==> !db.requests[r].valid
  {
    var after := Reinitialised(db);
    var identity := seq(db.max, i => i);
    if forall r :: 0 <= r < db.max ==> !db.requests[r].valid {
      InitialChain(db.max);
      assert SameFreeList(InitialDb(db.max), after);
      SameFreeListKeepsInv(InitialDb(db.max), after);
    }
    if PoolInv(after) {
      CountIsUsedSlots(after);
      forall r | 0 <= r < db.max ensures !db.requests[r].valid {
        assert r !in UsedSlots(after);
      }
    }
  }
}

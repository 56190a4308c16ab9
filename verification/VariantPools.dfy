/** The paged allocator of slots, with ids of a fixed width. */
module VariantPools {
  import opened Document
  import opened Slots

  /** The highest id means none; pools have a fixed capacity. */
  datatype Config = Config(nullSlot: nat, poolCapacity: nat, initialPools: nat) {
    /** Pools divide the ids evenly, and the first doublings lead to all of them. */
    ghost predicate Good() {
      poolCapacity >= 2 && (nullSlot + 1) % poolCapacity == 0 && Doubles(initialPools)
    }

    function MaxPools(): nat
      requires poolCapacity > 0
    {
      nullSlot / poolCapacity + 1
    }

    /** The last pool is smaller because of the null id. */
    function CapacityOf(pool: nat): nat
      requires poolCapacity > 0
    {
      if pool + 1 == MaxPools() then poolCapacity - 1 else poolCapacity
    }

    /** Doubling leads from this capacity to all pools, exactly. */
    ghost predicate Doubles(capacity: nat)
      requires poolCapacity > 0
      decreases MaxPools() - capacity
    {
      capacity == MaxPools() || (0 < capacity < MaxPools() && Doubles(2 * capacity))
    }

    function IdOf(pool: nat, index: nat): SlotId {
      pool * poolCapacity + index
    }

    function PoolOf(id: SlotId): nat
      requires poolCapacity > 0
    {
      id / poolCapacity
    }

    function IndexOf(id: SlotId): nat
      requires poolCapacity > 0
    {
      id % poolCapacity
    }
  }

  lemma IdIsTakenApart(c: Config, pool: nat, index: nat)
    requires index < c.poolCapacity
    ensures c.PoolOf(c.IdOf(pool, index)) == pool && c.IndexOf(c.IdOf(pool, index)) == index
  {
    DivisionIsUnique(c.IdOf(pool, index), c.poolCapacity, pool, index);
  }

  lemma DivisionIsUnique(a: nat, n: nat, q: nat, r: nat)
    requires 0 < n && r < n && a == q * n + r
    ensures a / n == q && a % n == r
  {
    SameQuotient(n, q, r, a / n, a % n);
  }

  lemma SameQuotient(n: nat, q: nat, r: nat, p: nat, s: nat)
    requires r < n && s < n && q * n + r == p * n + s
    ensures p == q && s == r
  {
    Apart(p, q, n);
    Apart(q, p, n);
  }

  lemma {:induction false} Apart(p: nat, q: nat, n: nat)
    ensures p > q ==> p * n >= q * n + n
  {
    if p > q {
      assert p * n == (p - 1) * n + n;
      Apart(p - 1, q, n);
    }
  }

  lemma IdIsPutTogether(c: Config, id: SlotId)
    requires c.poolCapacity > 0
    ensures c.IdOf(c.PoolOf(id), c.IndexOf(id)) == id && c.IndexOf(id) < c.poolCapacity
  {
  }

  lemma AllIdsFit(c: Config)
    requires c.poolCapacity > 0 && (c.nullSlot + 1) % c.poolCapacity == 0
    ensures c.MaxPools() * c.poolCapacity == c.nullSlot + 1
  {
    var n, q := c.poolCapacity, (c.nullSlot + 1) / c.poolCapacity;
    assert q * n == c.nullSlot + 1;
    assert q > 0;
    assert (q - 1) * n == q * n - n;
    DivisionIsUnique(c.nullSlot, n, q - 1, n - 1);
  }

  /** No slot of any pool has the null id, or one beyond it. */
  lemma IdIsNotNull(c: Config, pool: nat, index: nat)
    requires c.poolCapacity >= 2 && (c.nullSlot + 1) % c.poolCapacity == 0
    requires pool < c.MaxPools() && index < c.CapacityOf(pool)
    ensures c.IdOf(pool, index) < c.nullSlot
  {
    var n := c.poolCapacity;
    AllIdsFit(c);
    if pool + 1 < c.MaxPools() {
      assert (pool + 1) * n <= (c.MaxPools() - 1) * n;
    }
  }

  /** How many slots the first pools have. */
  function SlotsIn(c: Config, pools: nat): nat
    requires c.poolCapacity > 0
  {
    if pools == 0 then 0 else SlotsIn(c, pools - 1) + c.CapacityOf(pools - 1)
  }

  lemma {:induction false} SlotsInFirst(c: Config, pools: nat)
    requires c.poolCapacity > 0 && pools < c.MaxPools()
    ensures SlotsIn(c, pools) == pools * c.poolCapacity
  {
    if pools > 0 { SlotsInFirst(c, pools - 1); }
  }

  /** All pools together have one slot for every id but the null id. */
  lemma EveryIdIsUsable(c: Config)
    requires c.poolCapacity >= 2 && (c.nullSlot + 1) % c.poolCapacity == 0
    ensures SlotsIn(c, c.MaxPools()) == c.nullSlot
  {
    AllIdsFit(c);
    SlotsInFirst(c, c.MaxPools() - 1);
  }

  function FreshSlot(nullSlot: nat): VariantSlot {
    VariantSlot(Simple(Null), nullSlot, NoKey)
  }

  /** The memory of a pool that could not be allocated is null. */
  datatype Pool = Pool(hasMemory: bool, capacity: nat, slots: seq<VariantSlot>)

  /** The ids of the free list behind position k: null at its end. */
  function Link(free: seq<SlotId>, k: nat, nullSlot: nat): SlotId {
    if k < |free| then free[k] else nullSlot
  }

  type Pools = seq<Pool>

  predicate Slotted(c: Config, pools: Pools, id: SlotId)
    requires c.poolCapacity > 0
  {
    c.PoolOf(id) < |pools| && c.IndexOf(id) < |pools[c.PoolOf(id)].slots|
  }

  function SlotAt(c: Config, pools: Pools, id: SlotId): VariantSlot
    requires c.poolCapacity > 0 && Slotted(c, pools, id)
  {
    pools[c.PoolOf(id)].slots[c.IndexOf(id)]
  }

  ghost predicate PoolsFit(c: Config, pools: Pools, capacity: nat) {
    && c.Good() && |pools| <= capacity && c.Doubles(capacity)
    && forall i | 0 <= i < |pools| :: |pools[i].slots| <= pools[i].capacity <= c.CapacityOf(i)
  }

  /** Every slot of a pool is handed out or on the free list, not both. */
  ghost predicate Accounted(c: Config, pools: Pools, used: map<SlotId, VariantSlot>, free: seq<SlotId>)
    requires c.poolCapacity > 0
  {
    && (forall id <- used :: Slotted(c, pools, id) && SlotAt(c, pools, id) == used[id] && id !in free)
    && (forall id: SlotId :: Slotted(c, pools, id) ==> id in used || id in free)
  }

  /** The free list runs through the slots without coming back. */
  ghost predicate Threaded(c: Config, pools: Pools, freeList: SlotId, free: seq<SlotId>)
    requires c.poolCapacity > 0
  {
    && freeList == Link(free, 0, c.nullSlot)
    && (forall k | 0 <= k < |free| ::
          Slotted(c, pools, free[k]) && SlotAt(c, pools, free[k]).next == Link(free, k + 1, c.nullSlot))
    && (forall j, k | 0 <= j < k < |free| :: free[j] != free[k])
  }

  /** No slot is ever given the null id. */
  lemma IdsAreSmall(c: Config, pools: Pools, capacity: nat, id: SlotId)
    requires PoolsFit(c, pools, capacity) && Slotted(c, pools, id)
    ensures id < c.nullSlot
  {
    IdIsPutTogether(c, id);
    DoublesIsBounded(c, capacity);
    IdIsNotNull(c, c.PoolOf(id), c.IndexOf(id));
  }

  lemma {:induction false} DoublesIsBounded(c: Config, capacity: nat)
    requires c.poolCapacity > 0 && c.Doubles(capacity)
    ensures 0 < capacity <= c.MaxPools()
    decreases c.MaxPools() - capacity
  {
    if capacity != c.MaxPools() { DoublesIsBounded(c, 2 * capacity); }
  }

  // Writing a slot.

  function Stored(c: Config, pools: Pools, id: SlotId, slot: VariantSlot): Pools
    requires c.poolCapacity > 0 && Slotted(c, pools, id)
  {
    var p := c.PoolOf(id);
    pools[p := pools[p].(slots := pools[p].slots[c.IndexOf(id) := slot])]
  }

  lemma StoredOne(c: Config, pools: Pools, id: SlotId, slot: VariantSlot)
    requires c.poolCapacity > 0 && Slotted(c, pools, id)
    ensures var after := Stored(c, pools, id, slot);
            && (forall x: SlotId :: Slotted(c, after, x) <==> Slotted(c, pools, x))
            && (forall x: SlotId :: Slotted(c, after, x) ==>
                  SlotAt(c, after, x) == if x == id then slot else SlotAt(c, pools, x))
  {
    var after := Stored(c, pools, id, slot);
    forall x: SlotId | Slotted(c, after, x)
      ensures SlotAt(c, after, x) == if x == id then slot else SlotAt(c, pools, x)
    {
      if c.PoolOf(x) == c.PoolOf(id) && c.IndexOf(x) == c.IndexOf(id) {
        IdIsPutTogether(c, x);
        IdIsPutTogether(c, id);
      }
    }
  }

  lemma StoredFits(c: Config, pools: Pools, capacity: nat, id: SlotId, slot: VariantSlot)
    requires PoolsFit(c, pools, capacity) && Slotted(c, pools, id)
    ensures PoolsFit(c, Stored(c, pools, id, slot), capacity)
  {
  }

  ghost predicate Consistent(c: Config, pools: Pools, capacity: nat, freeList: SlotId,
                             used: map<SlotId, VariantSlot>, free: seq<SlotId>)
  {
    PoolsFit(c, pools, capacity) && Accounted(c, pools, used, free) && Threaded(c, pools, freeList, free)
  }

  lemma UsedIsStored(c: Config, pools: Pools, capacity: nat, freeList: SlotId, used: map<SlotId, VariantSlot>,
                     free: seq<SlotId>,
                     id: SlotId, slot: VariantSlot)
    requires Consistent(c, pools, capacity, freeList, used, free) && id in used
    ensures Consistent(c, Stored(c, pools, id, slot), capacity, freeList, used[id := slot], free)
  {
    StoredFits(c, pools, capacity, id, slot);
    StoredOne(c, pools, id, slot);
  }

  lemma FirstIsTaken(c: Config, pools: Pools, capacity: nat, freeList: SlotId, used: map<SlotId, VariantSlot>,
                     free: seq<SlotId>,
                     slot: VariantSlot)
    requires Consistent(c, pools, capacity, freeList, used, free) && freeList != c.nullSlot
    ensures free != [] && freeList == free[0] && Slotted(c, pools, freeList) && freeList !in used
    ensures Consistent(c, Stored(c, pools, freeList, slot), capacity, SlotAt(c, pools, freeList).next,
                       used[freeList := slot], free[1..])
  {
    var id := free[0];
    assert id in free;
    StoredFits(c, pools, capacity, id, slot);
    StoredOne(c, pools, id, slot);
    RestOfFree(free);
    RestIsThreaded(c, pools, freeList, free, slot);
  }

  lemma RestOfFree(free: seq<SlotId>)
    requires free != [] && forall j, k | 0 <= j < k < |free| :: free[j] != free[k]
    ensures forall x :: x in free[1..] <==> x in free && x != free[0]
  {
    forall x | x in free && x != free[0] ensures x in free[1..] {
      var k :| 0 <= k < |free| && free[k] == x;
      assert x == free[1..][k - 1];
    }
    forall x | x in free[1..] ensures x in free && x != free[0] {
      var k :| 0 <= k < |free[1..]| && free[1..][k] == x;
      assert x == free[k + 1];
    }
  }

  lemma RestIsThreaded(c: Config, pools: Pools, freeList: SlotId, free: seq<SlotId>, slot: VariantSlot)
    requires c.poolCapacity > 0 && free != [] && Threaded(c, pools, freeList, free)
    ensures Threaded(c, Stored(c, pools, free[0], slot), SlotAt(c, pools, free[0]).next, free[1..])
  {
    StoredOne(c, pools, free[0], slot);
    var rest := free[1..];
    forall k | 0 <= k < |rest|
      ensures rest[k] != free[0] && Slotted(c, pools, rest[k])
      ensures SlotAt(c, pools, rest[k]).next == Link(rest, k + 1, c.nullSlot)
    {
      assert rest[k] == free[k + 1];
    }
  }

  lemma UsedIsFreed(c: Config, pools: Pools, capacity: nat, freeList: SlotId, used: map<SlotId, VariantSlot>,
                    free: seq<SlotId>,
                    id: SlotId)
    requires Consistent(c, pools, capacity, freeList, used, free) && id in used
    ensures Consistent(c, Stored(c, pools, id, used[id].(next := freeList)), capacity, id, used - {id}, [id] + free)
  {
    var slot := used[id].(next := freeList);
    StoredFits(c, pools, capacity, id, slot);
    StoredOne(c, pools, id, slot);
    var more := [id] + free;
    forall k | 1 <= k < |more| ensures more[k] == free[k - 1] && more[k] != id {
    }
    assert forall x :: x in more <==> x == id || x in free;
  }

  // A new slot at the end of the last pool.

  function Extended(pools: Pools, slot: VariantSlot): Pools
    requires pools != []
  {
    var p := |pools| - 1;
    pools[p := pools[p].(slots := pools[p].slots + [slot])]
  }

  lemma LastIsExtended(c: Config, pools: Pools, capacity: nat, freeList: SlotId, used: map<SlotId, VariantSlot>,
                       free: seq<SlotId>,
                       slot: VariantSlot) returns (id: SlotId)
    requires Consistent(c, pools, capacity, freeList, used, free)
    requires pools != [] && |pools[|pools| - 1].slots| < pools[|pools| - 1].capacity
    ensures id == c.IdOf(|pools| - 1, |pools[|pools| - 1].slots|) < c.nullSlot && id !in used && id !in free
    ensures Consistent(c, Extended(pools, slot), capacity, freeList, used[id := slot], free)
  {
    var p := |pools| - 1;
    var k := |pools[p].slots|;
    var after := Extended(pools, slot);
    id := c.IdOf(p, k);
    assert pools[p].capacity <= c.CapacityOf(p);
    IdIsTakenApart(c, p, k);
    assert !Slotted(c, pools, id);
    ExtendedOne(c, pools, slot, id);
    ExtendedFits(c, pools, capacity, slot);
    IdsAreSmall(c, after, capacity, id);
    FreeIsSlotted(c, pools, freeList, free, id);
  }

  lemma FreeIsSlotted(c: Config, pools: Pools, freeList: SlotId, free: seq<SlotId>, id: SlotId)
    requires c.poolCapacity > 0 && Threaded(c, pools, freeList, free)
    ensures id in free ==> Slotted(c, pools, id)
  {
  }

  lemma ExtendedFits(c: Config, pools: Pools, capacity: nat, slot: VariantSlot)
    requires PoolsFit(c, pools, capacity) && pools != []
    requires |pools[|pools| - 1].slots| < pools[|pools| - 1].capacity
    ensures PoolsFit(c, Extended(pools, slot), capacity)
  {
  }

  lemma ExtendedOne(c: Config, pools: Pools, slot: VariantSlot, id: SlotId)
    requires c.poolCapacity > 0 && pools != []
    requires c.PoolOf(id) == |pools| - 1 && c.IndexOf(id) == |pools[|pools| - 1].slots|
    ensures var after := Extended(pools, slot);
            && (forall x: SlotId :: Slotted(c, after, x) <==> x == id || Slotted(c, pools, x))
            && (forall x: SlotId :: Slotted(c, after, x) ==>
                  SlotAt(c, after, x) == if x == id then slot else SlotAt(c, pools, x))
  {
    var after := Extended(pools, slot);
    forall x: SlotId ensures Slotted(c, after, x) <==> x == id || Slotted(c, pools, x) {
      if c.PoolOf(x) == c.PoolOf(id) && c.IndexOf(x) == c.IndexOf(id) {
        IdIsPutTogether(c, x);
        IdIsPutTogether(c, id);
      }
    }
  }

  lemma FitsUnwrapped(id: nat, nullSlot: nat)
    requires id <= nullSlot
    ensures id % (nullSlot + 1) == id
  {
  }

  // A new pool.

  lemma PoolIsAdded(c: Config, pools: Pools, capacity: nat, grown: nat, freeList: SlotId, used: map<SlotId,
                    VariantSlot>,
                    free: seq<SlotId>, pool: Pool)
    requires Consistent(c, pools, capacity, freeList, used, free)
    requires |pools| < grown && c.Doubles(grown) && pool.slots == [] && pool.capacity <= c.CapacityOf(|pools|)
    ensures Consistent(c, pools + [pool], grown, freeList, used, free)
  {
    var after := pools + [pool];
    forall x: SlotId
      ensures Slotted(c, after, x) <==> Slotted(c, pools, x)
      ensures Slotted(c, pools, x) ==> SlotAt(c, after, x) == SlotAt(c, pools, x)
    {
    }
  }

  // The last pool and the list of pools cut down to what is used.

  function Shrunk(pools: Pools): Pools
    requires pools != []
  {
    var last := |pools| - 1;
    pools[last := pools[last].(capacity := |pools[last].slots|)]
  }

  lemma PoolIsShrunk(c: Config, pools: Pools, capacity: nat, freeList: SlotId, used: map<SlotId, VariantSlot>,
                     free: seq<SlotId>)
    requires Consistent(c, pools, capacity, freeList, used, free) && pools != []
    ensures Consistent(c, Shrunk(pools), capacity, freeList, used, free)
  {
    var after := Shrunk(pools);
    forall x: SlotId
      ensures Slotted(c, after, x) <==> Slotted(c, pools, x)
      ensures Slotted(c, pools, x) ==> SlotAt(c, after, x) == SlotAt(c, pools, x)
    {
    }
  }

  lemma ListIsShrunk(c: Config, pools: Pools, capacity: nat, freeList: SlotId, used: map<SlotId, VariantSlot>,
                     free: seq<SlotId>)
    requires Consistent(c, pools, capacity, freeList, used, free)
    ensures Consistent(c, pools, |pools|, freeList, used, free) <==> c.Doubles(|pools|)
  {
  }

  // How the list of pools grows, allocation permitting.

  datatype Size = Size(count: nat, capacity: nat)

  /** The capacity is counted in as many bits as an id. */
  function Doubled(c: Config, capacity: nat): nat {
    capacity * 2 % (c.nullSlot + 1)
  }

  function OneMore(c: Config, s: Size): Size
    requires c.poolCapacity > 0
  {
    if s.count != s.capacity then Size(s.count + 1, s.capacity)
    else if s.capacity == c.MaxPools() then s
    else Size(s.count + 1, Doubled(c, s.capacity))
  }

  function After(c: Config, s: Size, n: nat): Size
    requires c.poolCapacity > 0
  {
    if n == 0 then s else OneMore(c, After(c, s, n - 1))
  }

  ghost predicate Divides(c: Config) {
    c.poolCapacity >= 2 && (c.nullSlot + 1) % c.poolCapacity == 0
  }

  lemma DoublingDoesNotWrap(c: Config, capacity: nat)
    requires Divides(c) && capacity < c.MaxPools()
    ensures Doubled(c, capacity) == 2 * capacity
  {
    AllIdsFit(c);
    ManyTimes(c.MaxPools(), c.poolCapacity);
    hide Config.MaxPools;
    SmallRemainder(capacity * 2, c.nullSlot + 1);
  }

  lemma ManyTimes(m: nat, k: nat)
    requires k >= 2
    ensures m * 2 <= m * k
  {
  }

  lemma SmallRemainder(a: nat, n: nat)
    requires a < n
    ensures a % n == a
  {
  }

  lemma {:induction false} DoublingStaysBelow(c: Config, s: Size, n: nat)
    requires Divides(c) && s.count <= s.capacity && c.Doubles(s.capacity)
    ensures var t := After(c, s, n); t.count <= t.capacity && c.Doubles(t.capacity)
  {
    if n > 0 {
      DoublingStaysBelow(c, s, n - 1);
      var t := After(c, s, n - 1);
      if t.count == t.capacity != c.MaxPools() {
        DoublingDoesNotWrap(c, t.capacity);
      }
    }
  }

  lemma {:induction false} AfterAfter(c: Config, s: Size, m: nat, n: nat)
    requires c.poolCapacity > 0
    ensures After(c, After(c, s, m), n) == After(c, s, m + n)
  {
    if n > 0 { AfterAfter(c, s, m, n - 1); }
  }

  lemma {:induction false} FillsUp(c: Config, s: Size, n: nat)
    requires c.poolCapacity > 0 && s.count + n <= s.capacity
    ensures After(c, s, n) == Size(s.count + n, s.capacity)
  {
    if n > 0 { FillsUp(c, s, n - 1); }
  }

  /** Off the doublings the test for all pools is stepped over. */
  lemma {:induction false} DoublingStepsOver(c: Config, s: Size) returns (n: nat)
    requires Divides(c) && 0 < s.count <= s.capacity && s.count <= c.MaxPools() && !c.Doubles(s.capacity)
    ensures After(c, s, n).count == c.MaxPools() + 1
    decreases if s.capacity < c.MaxPools() then c.MaxPools() - s.capacity else 0
  {
    if s.capacity > c.MaxPools() {
      n := c.MaxPools() + 1 - s.count;
      FillsUp(c, s, n);
    } else {
      var k := s.capacity - s.count;
      FillsUp(c, s, k);
      DoublingDoesNotWrap(c, s.capacity);
      assert After(c, s, k + 1) == Size(s.capacity + 1, 2 * s.capacity);
      var m := DoublingStepsOver(c, After(c, s, k + 1));
      AfterAfter(c, s, k + 1, m);
      n := k + 1 + m;
    }
  }

  /** The pools stay within the ids, however many are added, exactly when doubling
      the capacity leads to all of them. */
  lemma GrowthIsBounded(c: Config, s: Size)
    requires Divides(c) && 0 < s.count <= s.capacity && s.count <= c.MaxPools()
    ensures (forall n: nat :: After(c, s, n).count <= c.MaxPools()) <==> c.Doubles(s.capacity)
  {
    if c.Doubles(s.capacity) {
      forall n: nat ensures After(c, s, n).count <= c.MaxPools() {
        DoublingStaysBelow(c, s, n);
        DoublesIsBounded(c, After(c, s, n).capacity);
      }
    } else {
      var n := DoublingStepsOver(c, s);
    }
  }

  /** The first slot of a pool too many has the id of the very first slot. */
  lemma PoolTooManyWraps(c: Config)
    requires Divides(c)
    ensures c.IdOf(c.MaxPools(), 0) % (c.nullSlot + 1) == c.IdOf(0, 0)
  {
    AllIdsFit(c);
  }

  /** 8-bit ids and pools of 16: a list shrunk to 5 pools grows to 10 and to 20,
      while there are ids for 16. */
  lemma ShrunkListOutgrowsIds()
    ensures var c := Config(0xFF, 16, 4);
            c.Good() && c.MaxPools() == 16 && !c.Doubles(5)
            && (exists n: nat :: After(c, Size(5, 5), n).count == 17)
            && c.IdOf(16, 0) % (c.nullSlot + 1) == c.IdOf(0, 0)
  {
    var c := Config(0xFF, 16, 4);
    assert c.Doubles(16) && c.Doubles(8) && c.Doubles(4);
    assert !c.Doubles(20) && !c.Doubles(10) && !c.Doubles(5);
    var n := DoublingStepsOver(c, Size(5, 5));
  }

  class VariantPoolList {
    const config: Config
    // the part of pools_ that is in use, and how long pools_ is
    var pools: seq<Pool>
    var capacity: nat
    var preallocated: bool
    var freeList: SlotId
    // the slots handed out, by id, and the free list from its head on
    ghost var used: map<SlotId, VariantSlot>
    ghost var free: seq<SlotId>

    ghost predicate Valid()
      reads this
    {
      && Consistent(config, pools, capacity, freeList, used, free)
      && (preallocated ==> capacity == config.initialPools)
    }

    constructor (config: Config)
      requires config.Good()
      ensures Valid() && this.config == config && used == map[] && pools == [] && free == []
    {
      this.config := config;
      pools := [];
      capacity := config.initialPools;
      preallocated := true;
      freeList := config.nullSlot;
      used := map[];
      free := [];
    }

    /** Ids tell slots apart, and none of them is the null id. */
    lemma IdIsOfSlot(id: SlotId)
      requires Valid() && id in used
      ensures id < config.nullSlot && Slotted(config, pools, id) && SlotAt(config, pools, id) == used[id]
    {
      IdsAreSmall(config, pools, capacity, id);
    }

    method GetSlot(id: SlotId) returns (slot: VariantSlot)
      requires Valid() && id in used
      ensures slot == used[id]
    {
      var poolIndex := id / config.poolCapacity;
      var indexInPool := id % config.poolCapacity;
      slot := pools[poolIndex].slots[indexInPool];
    }

    /** Writes through the pointer to a slot. */
    method SetSlot(id: SlotId, slot: VariantSlot)
      requires Valid() && id in used
      modifies this`pools, this`used
      ensures Valid() && used == old(used)[id := slot]
    {
      UsedIsStored(config, pools, capacity, freeList, used, free, id, slot);
      pools := Stored(config, pools, id, slot);
      used := used[id := slot];
    }

    method AllocFromFreeList() returns (id: SlotId)
      requires Valid() && freeList != config.nullSlot
      modifies this
      ensures Valid() && id == old(freeList) && id !in old(used) && old(free) == [id] + free
      ensures used == old(used)[id := FreshSlot(config.nullSlot)]
      ensures |pools| == |old(pools)| && capacity == old(capacity)
    {
      hide Accounted, Threaded;
      FirstIsTaken(config, pools, capacity, freeList, used, free, FreshSlot(config.nullSlot));
      id := freeList;
      freeList := SlotAt(config, pools, id).next;
      pools := Stored(config, pools, id, FreshSlot(config.nullSlot));
      used := used[id := FreshSlot(config.nullSlot)];
      free := free[1..];
    }

    method AllocFromLastPool() returns (id: SlotId)
      requires Valid() && pools != []
      modifies this`pools, this`used
      ensures Valid()
      ensures var last := old(pools)[|old(pools)| - 1];
              if last.hasMemory && |last.slots| < last.capacity
              then id != config.nullSlot && id !in old(used) && used == old(used)[id := FreshSlot(config.nullSlot)]
              else id == config.nullSlot && used == old(used) && pools == old(pools)
    {
      hide Accounted, Threaded;
      var poolIndex := |pools| - 1;
      var pool := pools[poolIndex];
      if !pool.hasMemory || |pool.slots| >= pool.capacity {
        return config.nullSlot;
      }
      ghost var next := LastIsExtended(config, pools, capacity, freeList, used, free, FreshSlot(config.nullSlot));
      hide PoolsFit;
      // ids are as wide as the null id
      FitsUnwrapped(next, config.nullSlot);
      id := (poolIndex * config.poolCapacity + |pool.slots|) % (config.nullSlot + 1);
      pools := Extended(pools, FreshSlot(config.nullSlot));
      used := used[id := FreshSlot(config.nullSlot)];
    }

    method IncreaseCapacity(ok: bool) returns (grown: bool)
      requires Valid() && |pools| == capacity
      modifies this`capacity, this`preallocated
      ensures Valid() && grown == (old(capacity) != config.MaxPools() && ok)
      ensures capacity == if grown then Doubled(config, old(capacity)) else old(capacity)
      ensures grown ==> capacity > old(capacity)
    {
      if capacity == config.MaxPools() {
        return false;
      }
      if !ok {
        return false;
      }
      DoublesIsBounded(config, capacity);
      DoublingDoesNotWrap(config, capacity);
      capacity := capacity * 2 % (config.nullSlot + 1);
      preallocated := false;
      grown := true;
    }

    /** A pool that gets no memory stays in the list, empty for good. */
    method AddPool(growOk: bool, poolOk: bool) returns (added: bool)
      requires Valid()
      modifies this`pools, this`capacity, this`preallocated
      ensures Valid()
      ensures added == (|old(pools)| != old(capacity) || (old(capacity) != config.MaxPools() && growOk))
      ensures added ==> Size(|pools|, capacity) == OneMore(config, Size(|old(pools)|, old(capacity)))
      ensures added ==> pools == old(pools) + [Pool(poolOk, if poolOk then config.CapacityOf(|old(pools)|) else 0, [])]
      ensures !added ==> pools == old(pools) && capacity == old(capacity)
    {
      if |pools| == capacity {
        var grown := IncreaseCapacity(growOk);
        if !grown {
          return false;
        }
      }
      var poolCapacity := config.poolCapacity;
      if |pools| + 1 == config.MaxPools() {
        // the last pool is smaller because of the null id
        poolCapacity := poolCapacity - 1;
      }
      var pool := Pool(poolOk, if poolOk then poolCapacity else 0, []);
      PoolIsAdded(config, pools, capacity, capacity, freeList, used, free, pool);
      pools := pools + [pool];
      added := true;
    }

    /** A slot that nobody has, or none: with memory at hand only when every pool
        there can be has been made and the last one is full. */
    method AllocSlot(growOk: bool, poolOk: bool) returns (id: SlotId)
      requires Valid()
      modifies this
      ensures Valid()
      ensures id != config.nullSlot ==> id !in old(used) && used == old(used)[id := FreshSlot(config.nullSlot)]
      ensures id == config.nullSlot ==> used == old(used)
      ensures id == config.nullSlot && growOk && poolOk ==>
        |pools| == config.MaxPools() && pools == old(pools) && old(free) == []
      ensures old(free) != [] ==> id == old(free)[0]
      ensures old(free) == [] && old(pools) == [] && !poolOk ==> id == config.nullSlot
    {
      // from the free list
      if freeList != config.nullSlot {
        FirstIsTaken(config, pools, capacity, freeList, used, free, FreshSlot(config.nullSlot));
        IdsAreSmall(config, pools, capacity, freeList);
        id := AllocFromFreeList();
        return;
      }
      assert free == [] by {
        if free != [] { IdsAreSmall(config, pools, capacity, free[0]); }
      }
      // from the last pool, the others being full
      if pools != [] {
        id := AllocFromLastPool();
        if id != config.nullSlot {
          return;
        }
      }
      DoublesIsBounded(config, capacity);
      var added := AddPool(growOk, poolOk);
      if !added {
        return config.nullSlot;
      }
      id := AllocFromLastPool();
    }

    method FreeSlot(id: SlotId)
      requires Valid() && id in used
      modifies this
      ensures Valid() && used == old(used) - {id} && free == [id] + old(free)
    {
      UsedIsFreed(config, pools, capacity, freeList, used, free, id);
      pools := Stored(config, pools, id, SlotAt(config, pools, id).(next := freeList));
      freeList := id;
      used := used - {id};
      free := [id] + free;
    }

    /** Gives back what is not used. From then on the capacity may be off the
        doublings, and only while it is not do ids stay apart as pools are added. */
    method ShrinkToFit(ok: bool)
      requires Valid()
      modifies this
      ensures used == old(used) && free == old(free)
      ensures capacity == if old(preallocated) then old(capacity) else |pools|
      ensures Valid() <==> config.Doubles(capacity)
    {
      if pools != [] {
        PoolIsShrunk(config, pools, capacity, freeList, used, free);
        if ok {
          pools := Shrunk(pools);
        }
      }
      if !preallocated && |pools| != capacity {
        ListIsShrunk(config, pools, capacity, freeList, used, free);
        capacity := |pools|;
      }
    }

    method Clear()
      requires Valid()
      modifies this
      ensures Valid() && used == map[] && free == []
    {
      pools := [];
      freeList := config.nullSlot;
      if !preallocated {
        preallocated := true;
        capacity := config.initialPools;
      }
      used := map[];
      free := [];
    }
  }
}

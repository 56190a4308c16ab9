/** The collections of a document, threaded through the slots of its pools. */
module JsonDocuments {
  import opened Bytes
  import opened Options
  import opened Document
  import opened Slots
  import opened StringPools
  import opened VariantPools
  import opened Forests
  import opened Releases
  import opened OwnerCounts

  /** How deep a place is: children are deeper than their collection. */
  function Level(f: Forest, p: Place): nat {
    if p == Root then 0 else if p.id in f.depth then f.depth[p.id] + 1 else 0
  }

  /** What is being cleared lies above. */
  ghost predicate OpenAbove(f: Forest, p: Place) {
    forall q <- f.open :: Level(f, q) < Level(f, p)
  }

  /** New null slots at the end of one list, and nothing else has changed. */
  ghost predicate Grown(f: Forest, g: Forest, p: Place, ids: seq<SlotId>) {
    && p in f.lists && g.lists == f.lists[p := f.lists[p] + ids]
    && (forall q :: HasPlace(f, q) ==> HasPlace(g, q))
    && (forall q | HasPlace(f, q) && q != p :: DataAt(g, q) == DataAt(f, q))
    && (HasPlace(f, p) ==> DataAt(g, p).Array? == DataAt(f, p).Array?)
    && (forall x <- ids :: x !in f.h && x in g.h && g.h[x].data == Nothing() && g.h[x].key == NoKey)
    && (forall x <- g.h :: if x in f.h then g.h[x].key == f.h[x].key else x in ids)
  }

  /** One slot is gone from a list, with all that lay under it, and nothing else
      has changed. */
  ghost predicate Shortened(f: Forest, g: Forest, p: Place, k: nat, F: set<SlotId>) {
    && p in f.lists && k < |f.lists[p]| && f.lists[p][k] in F && (p.In? ==> p.id !in F)
    && (forall x <- f.h :: x in F <==>
          x == f.lists[p][k] || (x in f.owner && f.owner[x].In? && f.owner[x].id in F))
    && g.h.Keys == f.h.Keys - F
    && g.lists == Without(f.lists, F)[p := Cut(f.lists[p], k)]
    && (forall q | HasPlace(g, q) && q != p :: HasPlace(f, q) && DataAt(g, q) == DataAt(f, q))
    && (HasPlace(g, p) ==> HasPlace(f, p) && DataAt(g, p).Array? == DataAt(f, p).Array?)
    && (forall x <- g.h :: x in f.h && g.h[x].key == f.h[x].key)
  }

  function WithKey(f: Forest, id: SlotId, key: Key): Forest
    requires id in f.h
  {
    f.(h := f.h[id := f.h[id].(key := key)])
  }

  /** A new null member with this key at the end of an object, and nothing else. */
  ghost predicate Named(f: Forest, g: Forest, strings: seq<StringNode>, p: Place, id: SlotId, key: bytes) {
    && id in g.h && g.h[id].key.OwnedKey? && TextOf(strings, g.h[id].key.node) == Some(key)
    && Grown(f, WithKey(g, id, NoKey), p, [id])
  }

  /** The key of a new member is shared, or there is memory for it. */
  predicate KeyIsSaved(strings: seq<StringNode>, key: bytes, ok: bool) {
    ok || Find(strings, key).Some?
  }

  function Nothing(): VariantData {
    Simple(Null)
  }

  /** The value at p and all under it gone. */
  ghost predicate Nullified(f: Forest, g: Forest, nil: SlotId, p: Place, F: set<SlotId>)
    requires HasPlace(f, p)
  {
    if p in f.lists then
      && Closure(f, SetOf(f.lists[p]), F) && (p.In? ==> p.id in f.h && p.id !in F) && DataAt(f, p).IsCollection()
      && g == Replaced(Cleared(f, nil, p, F), p, Nothing())
    else
      F == {} && g == Replaced(f, p, Nothing())
  }

  class JsonDocument {
    const variantPools: VariantPoolList
    const stringPool: StringPool
    const nil: SlotId
    // the root of the document
    var data: VariantData
    var overflowed: bool
    // what the slots amount to, the slots whose key is already given up, and
    // the references that nobody owns
    ghost var forest: Forest
    ghost var dropped: set<SlotId>
    ghost var strays: Strays

    /** The forest is the one in the slots. */
    ghost predicate Synced()
      reads this, variantPools, stringPool
    {
      && variantPools.Valid() && stringPool.Valid() && nil == variantPools.config.nullSlot
      && forest.h == variantPools.used && forest.root == data
    }

    ghost predicate Valid()
      reads this, variantPools, stringPool
    {
      && Synced() && Forests.Valid(forest, nil) && dropped <= forest.out
      && OwnersCount(stringPool.strings, forest.h, forest.root, dropped, strays)
    }

    /** Nothing is being released. */
    ghost predicate Whole()
      reads this, variantPools, stringPool
    {
      Valid() && forest.out == {} && forest.open == {} && dropped == {}
    }

    constructor (config: Config)
      requires config.Good()
      ensures Whole() && strays == multiset{} && !overflowed && fresh(variantPools) && fresh(stringPool)
      ensures data == Nothing() && forest.h == map[] && stringPool.strings == [] && nil == config.nullSlot
      ensures variantPools.pools == [] && variantPools.free == []
    {
      variantPools := new VariantPoolList(config);
      stringPool := new StringPool();
      nil := config.nullSlot;
      data := Nothing();
      overflowed := false;
      forest := Forest(map[], Nothing(), map[], map[], map[], 0, {}, {});
      dropped := {};
      strays := multiset{};
    }

    method DataOf(p: Place) returns (d: VariantData)
      requires Synced() && HasPlace(forest, p)
      ensures d == DataAt(forest, p)
    {
      if p == Root {
        d := data;
      } else {
        var slot := variantPools.GetSlot(p.id);
        d := slot.data;
      }
    }

    /** Writes a value; what that means for the lists is up to the caller. */
    method WriteData(p: Place, d: VariantData)
      requires Synced() && HasPlace(forest, p)
      modifies this`data, this`forest, variantPools
      ensures p == Root ==> unchanged(variantPools)
      ensures Synced() && forest == WithData(old(forest), p, d)
    {
      if p == Root {
        data := d;
      } else {
        var slot := variantPools.GetSlot(p.id);
        variantPools.SetSlot(p.id, slot.(data := d));
      }
      forest := WithData(forest, p, d);
    }

    /** VariantData::setNull: gives back what the value owns. */
    method SetNull(p: Place) returns (ghost F: set<SlotId>)
      requires Valid() && HasPlace(forest, p) && p !in forest.open && OpenAbove(forest, p)
      modifies this`data, this`forest, this`dropped, variantPools, stringPool
      ensures p == Root && !old(data).IsCollection() ==> unchanged(variantPools)
      ensures Valid() && dropped == old(dropped) && strays == old(strays)
      ensures Nullified(old(forest), forest, nil, p, F)
      ensures Reduced(old(stringPool.strings), stringPool.strings)
      decreases forest.limit + 1 - Level(forest, p), 6
    {
      hide Chained, Ended, Owned, Deep, OwnersCount, Consistent, Distinct, Reduced, OpenAbove;
      NothingReduced(stringPool.strings);
      var d := DataOf(p);
      F := {};
      if d.OwnedString? {
        GiveUpString(p, d.node);
      } else {
        if d.IsCollection() {
          F := Clear(p);
        }
        ForgetValue(p);
      }
    }

    /** An owned string is dereferenced, and the value owns it no more. */
    method GiveUpString(p: Place, node: Address)
      requires Valid() && HasPlace(forest, p) && DataAt(forest, p) == OwnedString(node)
      modifies this`data, this`forest, variantPools, stringPool
      ensures p == Root && !old(data).IsCollection() ==> unchanged(variantPools)
      ensures Valid() && forest == Replaced(old(forest), p, Nothing())
      ensures Reduced(old(stringPool.strings), stringPool.strings)
    {
      hide Placed, Chained, Ended, Owned, Deep, OwnersCount, Consistent, Distinct, Reduced;
      ghost var f, strings := forest, stringPool.strings;
      NoListHere(f, p);
      stringPool.Dereference(node);
      CountsAfterGivingUp(strings, stringPool.strings, f, dropped, strays, p, node);
      ReplacedIsValid(f, nil, p, Nothing());
      WriteData(p, Nothing());
    }

    /** A value that owns no string, and no slots, becomes null. */
    method ForgetValue(p: Place)
      requires Valid() && HasPlace(forest, p) && !DataAt(forest, p).OwnedString?
               && (p in forest.lists ==> forest.lists[p] == [])
      modifies this`data, this`forest, variantPools
      ensures p == Root && !old(data).IsCollection() ==> unchanged(variantPools)
      ensures Valid() && forest == Replaced(old(forest), p, Nothing())
    {
      ghost var f := forest;
      hide Placed, Chained, Ended, Owned, Deep, OwnersCount, Consistent, Distinct, Reduced;
      CountsAfterForgetting(stringPool.strings, f, dropped, strays, p, Nothing());
      ReplacedIsValid(f, nil, p, Nothing());
      WriteData(p, Nothing());
      forest := Replaced(f, p, Nothing());
    }

    ghost method OpenList(p: Place)
      requires Valid()
      modifies this`forest
      ensures Valid() && forest == old(forest).(open := old(forest.open) + {p})
    {
      hide Placed, Chained, Ended, Owned, Deep, OwnersCount, Consistent, Distinct, Reduced;
      OpenedIsValid(forest, nil, p);
      forest := forest.(open := forest.open + {p});
    }

    /** A collection whose slots are gone has neither head nor tail. */
    method CloseList(p: Place)
      requires Valid() && HasPlace(forest, p) && p in forest.lists && forest.lists[p] == []
               && DataAt(forest, p).IsCollection()
      modifies this`data, this`forest, variantPools
      ensures Valid()
      ensures forest
              == WithData(old(forest), p, WithEnds(DataAt(old(forest), p), nil, nil)).(open := old(forest.open) - {p})
    {
      hide Placed, Chained, Ended, Owned, Deep, OwnersCount, Consistent, Distinct, Reduced;
      var d := DataOf(p);
      EmptiedIsValid(forest, nil, p, WithEnds(d, nil, nil));
      CountsAfterForgetting(stringPool.strings, forest, dropped, strays, p, WithEnds(d, nil, nil));
      WriteData(p, WithEnds(d, nil, nil));
      forest := forest.(open := forest.open - {p});
    }

    /** One turn of the loop below. */
    method ClearOne(p: Place, currId: SlotId, ghost f: Forest, ghost k: nat, ghost F: set<SlotId>)
      returns (next: SlotId, ghost more: set<SlotId>)
      requires Valid() && Forests.Valid(f, nil) && p in f.lists && p !in f.open && OpenAbove(f, p)
               && (p.In? ==> p.id !in F)
      requires k <= |f.lists[p]| && currId == Link(f.lists[p], k, nil) != nil && Closure(f, SetOf(f.lists[p][..k]), F)
      requires forest == Clearing(f, p, f.lists[p], k, F)
      modifies this`data, this`forest, this`dropped, variantPools, stringPool
      ensures Valid() && dropped == old(dropped) && strays == old(strays)
      ensures k + 1 <= |f.lists[p]| && next == Link(f.lists[p], k + 1, nil)
      ensures forest == Clearing(f, p, f.lists[p], k + 1, more)
      ensures Closure(f, SetOf(f.lists[p][..k + 1]), more) && (p.In? ==> p.id !in more)
      ensures Reduced(old(stringPool.strings), stringPool.strings)
      decreases f.limit + 1 - Level(f, p), 4
    {
      CurrentIs(f, nil, p, k, F, currId);
      assert Deep(forest);
      hide Placed, Chained, Ended, Owned, Deep, OwnersCount, Consistent, Distinct, Reduced, OpenAbove;
      hide Clearing, Closure, Pruned, Level, Link, Cleared, SetOf;
      ghost var G;
      next, G := ReleaseFirst(p, currId);
      ClearedFirst(f, nil, p, k, F, G);
      more := F + G;
    }

    /** CollectionData::clear. */
    method Clear(p: Place) returns (ghost F: set<SlotId>)
      requires Valid() && p in forest.lists && p !in forest.open && OpenAbove(forest, p)
      modifies this`data, this`forest, this`dropped, variantPools, stringPool
      ensures Valid() && dropped == old(dropped) && strays == old(strays)
      ensures Closure(old(forest), SetOf(old(forest.lists[p])), F)
      ensures (p.In? ==> p.id in old(forest.h) && p.id !in F) && DataAt(old(forest), p).IsCollection()
      ensures forest == Cleared(old(forest), nil, p, F)
      ensures Reduced(old(stringPool.strings), stringPool.strings)
      decreases forest.limit + 1 - Level(forest, p), 5
    {
      hide Placed, Chained, Ended, Owned, Deep, OwnersCount, Consistent, Distinct, Reduced, OpenAbove;
      hide Clearing, Closure, Pruned, Level, Link, Cleared, SetOf, WithData;
      ghost var f, ids := forest, forest.lists[p];
      ListIsHere(f, nil, p);
      var d := DataOf(p);
      var next := d.head;
      F := {};
      ghost var k, strings := 0, stringPool.strings;
      ClearingStarts(f, p);
      NothingReduced(strings);
      OpenList(p);
      while next != nil
        invariant Valid() && dropped == old(dropped) && strays == old(strays)
        invariant k <= |ids| && next == Link(ids, k, nil)
        invariant forest == Clearing(f, p, ids, k, F)
        invariant Closure(f, SetOf(ids[..k]), F) && (p.In? ==> p.id !in F)
        invariant Reduced(strings, stringPool.strings)
        decreases |ids| - k
      {
        ghost var between := stringPool.strings;
        next, F := ClearOne(p, next, f, k, F);
        ReducedTwice(strings, between, stringPool.strings);
        k := k + 1;
      }
      AllCleared(f, nil, p, k, F);
      CloseList(p);
    }

    ghost method DetachFirst(p: Place)
      requires Valid() && p in forest.lists && p in forest.open && forest.lists[p] != []
      modifies this`forest
      ensures Valid() && forest == Detached(old(forest), p)
    {
      hide Placed, Chained, Ended, Owned, Deep, OwnersCount, Consistent, Distinct, Reduced;
      DetachedIsValid(forest, nil, p);
      forest := Detached(forest, p);
    }

    /** The first slot of a list that is being cleared. */
    method ReleaseFirst(p: Place, currId: SlotId) returns (next: SlotId, ghost G: set<SlotId>)
      requires Valid() && p in forest.lists && p in forest.open && forest.lists[p] != [] && currId == forest.lists[p][0]
      requires forall q <- forest.open :: q == p || Level(forest, q) < Level(forest, p)
      modifies this`data, this`forest, this`dropped, variantPools, stringPool
      ensures Valid() && dropped == old(dropped) && strays == old(strays)
      ensures next == Link(old(forest.lists[p]), 1, nil)
      ensures Closure(Detached(old(forest), p), {currId}, G)
      ensures forest == Pruned(Detached(old(forest), p), G)
      ensures Reduced(old(stringPool.strings), stringPool.strings)
      decreases forest.limit + 1 - Level(forest, p), 3
    {
      FirstIsDeeper(forest, nil, p);
      hide Placed, Chained, Ended, Owned, Deep, OwnersCount, Consistent, Distinct, Reduced, Closure, Pruned, Level,
          OpenAbove, Link;
      var slot := variantPools.GetSlot(currId);
      next := slot.next;
      DetachFirst(p);
      G := ReleaseSlot(currId);
    }

    /** The key of a slot is dereferenced if the slot owns it. */
    method GiveUpKey(key: Key)
      requires stringPool.Valid()
      modifies stringPool
      ensures stringPool.Valid() && KeyGivenUp(old(stringPool.strings), stringPool.strings, key)
      ensures Reduced(old(stringPool.strings), stringPool.strings)
    {
      hide Distinct, Reduced;
      NothingReduced(stringPool.strings);
      if key.OwnedKey? {
        stringPool.Dereference(key.node);
      }
    }

    method DropKey(id: SlotId)
      requires Valid() && id in forest.out && id !in dropped
      modifies this`dropped, stringPool
      ensures Valid() && dropped == old(dropped) + {id}
      ensures Reduced(old(stringPool.strings), stringPool.strings)
    {
      hide Forests.Valid, OwnersCount, Consistent, Distinct, Reduced, KeyGivenUp;
      OutIsHere(forest, nil, id);
      ghost var strings := stringPool.strings;
      var slot := variantPools.GetSlot(id);
      GiveUpKey(slot.key);
      CountsAfterKey(strings, stringPool.strings, forest.h, forest.root, dropped, strays, id);
      dropped := dropped + {id};
    }

    method FreeReleased(id: SlotId)
      requires Valid() && id in forest.out && id in dropped && In(id) !in forest.lists
      requires id in forest.h && !forest.h[id].data.OwnedString?
      modifies this`forest, this`dropped, variantPools
      ensures Valid() && forest == Dropped(old(forest), id) && dropped == old(dropped) - {id}
    {
      hide Placed, Chained, Ended, Owned, Deep, OwnersCount, Consistent, Distinct, Reduced;
      CountsAfterFreeing(stringPool.strings, forest.h, forest.root, dropped, strays, id);
      DroppedIsValid(forest, nil, id);
      variantPools.FreeSlot(id);
      forest := Dropped(forest, id);
      dropped := dropped - {id};
    }

    /** CollectionData::releaseSlot. */
    method ReleaseSlot(id: SlotId) returns (ghost F: set<SlotId>)
      requires Valid() && id in forest.out && In(id) !in forest.open && OpenAbove(forest, In(id)) && id !in dropped
      modifies this`data, this`forest, this`dropped, variantPools, stringPool
      ensures Valid() && dropped == old(dropped) && strays == old(strays)
      ensures Closure(old(forest), {id}, F)
      ensures forest == Pruned(old(forest), F)
      ensures Reduced(old(stringPool.strings), stringPool.strings)
      decreases forest.limit + 1 - Level(forest, In(id)), 7
    {
      ghost var f := forest;
      assert id in f.h;
      hide Placed, Chained, Ended, Owned, Deep, OwnersCount, Consistent, Distinct, Reduced, OpenAbove, Closure, Pruned,
          Level, Nullified;
      ghost var strings := stringPool.strings;
      DropKey(id);
      ghost var between := stringPool.strings;
      ghost var G := SetNull(In(id));
      ReducedTwice(strings, between, stringPool.strings);
      SlotReleased(f, forest, nil, id, G);
      FreeReleased(id);
      F := G + {id};
    }

    // Adding slots.

    method AllocSlot(growOk: bool, poolOk: bool) returns (id: SlotId)
      requires Valid()
      modifies this`forest, this`overflowed, variantPools
      ensures !poolOk && old(variantPools.pools) == [] && old(variantPools.free) == [] ==> id == nil
      ensures Valid()
      ensures id == nil ==> forest == old(forest) && overflowed
      ensures id != nil ==> id !in old(forest.h) && forest == Fresh(old(forest), id, FreshSlot(nil))
                            && overflowed == old(overflowed)
      ensures growOk && poolOk && id == nil ==> |variantPools.pools| == variantPools.config.MaxPools()
    {
      hide Placed, Chained, Ended, Owned, Deep, OwnersCount, Consistent, Distinct, Reduced;
      id := variantPools.AllocSlot(growOk, poolOk);
      if id == nil {
        overflowed := true;
      } else {
        FreshIsValid(forest, nil, id, FreshSlot(nil));
        CountsAfterAdding(stringPool.strings, forest.h, forest.root, dropped, strays, id, FreshSlot(nil));
        forest := Fresh(forest, id, FreshSlot(nil));
      }
    }

    method WriteNext(id: SlotId, next: SlotId)
      requires Synced() && id in forest.h
      modifies this`forest, variantPools
      ensures Synced() && forest == WithNext(old(forest), id, next)
    {
      var slot := variantPools.GetSlot(id);
      variantPools.SetSlot(id, slot.(next := next));
      forest := WithNext(forest, id, next);
    }

    /** A new slot goes behind the tail, or becomes head and tail. */
    method AppendSlot(p: Place, id: SlotId)
      requires Valid() && CanAppend(forest, nil, p, id) && id !in dropped
      modifies this`data, this`forest, variantPools
      ensures Valid() && CanAppend(old(forest), nil, p, id) && forest == Appended(old(forest), nil, p, id)
    {
      hide Placed, Chained, Ended, Owned, Deep, OwnersCount, Consistent, Distinct, Reduced, CanAppend, Appended,
          WithNext, WithData;
      ghost var g := AppendPlan(stringPool.strings, forest, nil, dropped, strays, p, id);
      var d := DataOf(p);
      if d.tail != nil {
        WriteNext(d.tail, id);
        WriteData(p, WithEnds(d, d.head, id));
      } else {
        WriteData(p, WithEnds(d, id, id));
      }
      forest := g;
    }

    /** CollectionData::addSlot. */
    method AddSlot(p: Place, growOk: bool, poolOk: bool) returns (id: SlotId)
      requires Whole() && p in forest.lists
      modifies this`data, this`forest, this`overflowed, variantPools
      ensures !poolOk && old(variantPools.pools) == [] && old(variantPools.free) == [] ==> id == nil
      ensures old(overflowed) ==> overflowed
      ensures Whole() && strays == old(strays)
      ensures id == nil ==> forest == old(forest) && overflowed
      ensures id != nil ==> Grown(old(forest), forest, p, [id])
      ensures growOk && poolOk && id == nil ==> |variantPools.pools| == variantPools.config.MaxPools()
    {
      hide Placed, Chained, Ended, Owned, Deep, OwnersCount, Consistent, Distinct, Reduced, CanAppend, Appended, Fresh,
          Grown;
      ghost var f := forest;
      id := AllocSlot(growOk, poolOk);
      if id != nil {
        CanAppendFresh(f, nil, p, id);
        GrownByOne(f, nil, p, id);
        AppendSlot(p, id);
      }
    }

    // Elements of an array.

    /** The loop of the iterator: index elements on, or to the end. */
    method Seek(p: Place, index: nat) returns (id: SlotId, left: nat)
      requires Valid() && p in forest.lists && p !in forest.open
      ensures left <= index && index - left <= |forest.lists[p]|
      ensures id == Link(forest.lists[p], index - left, nil) && (id == nil || left == 0)
    {
      hide Placed, Chained, Ended, Owned, Deep, OwnersCount, Consistent, Distinct, Reduced;
      ListIsHere(forest, nil, p);
      var d := DataOf(p);
      id := d.head;
      left := index;
      while id != nil && left > 0
        invariant left <= index && index - left <= |forest.lists[p]|
        invariant id == Link(forest.lists[p], index - left, nil)
        decreases left
      {
        LinkSlot(forest, nil, p, index - left);
        var slot := variantPools.GetSlot(id);
        id := slot.next;
        left := left - 1;
      }
    }

    /** ArrayData::at: the id of an element, or none behind the last one. */
    method At(p: Place, index: nat) returns (id: SlotId)
      requires Valid() && p in forest.lists && p !in forest.open
      ensures id == Link(forest.lists[p], index, nil)
    {
      hide Placed, Chained, Ended, Owned, Deep, OwnersCount, Consistent, Distinct, Reduced;
      NoNilInList(forest, nil, p);
      var left;
      id, left := Seek(p, index);
      LinkEnds(forest.lists[p], index - left, index, nil);
    }

    /** ArrayData::getOrAddElement: elements are added until there is one at the
        index. The outcome of allocations is up to memory. */
    method GetOrAddElement(p: Place, index: nat, memory: nat -> (bool, bool))
      returns (id: SlotId, ghost ids: seq<SlotId>)
      requires Whole() && p in forest.lists
      modifies this`data, this`forest, this`overflowed, variantPools
      ensures (old(overflowed) ==> overflowed) && (id == nil ==> overflowed)
      ensures Whole() && strays == old(strays)
      ensures if ids == [] then forest == old(forest) else Grown(old(forest), forest, p, ids)
      ensures p in forest.lists && forest.lists[p] == old(forest.lists[p]) + ids
      ensures id == nil ==> |old(forest.lists[p])| + |ids| <= index
      ensures id != nil ==> id == Link(forest.lists[p], index, nil)
      ensures id != nil ==> |ids| == if index < |old(forest.lists[p])| then 0 else index + 1 - |old(forest.lists[p])|
    {
      hide Placed, Chained, Ended, Owned, Deep, OwnersCount, Consistent, Distinct, Reduced, Grown;
      ghost var f, before := forest, forest.lists[p];
      ListIsHere(f, nil, p);
      NoNilInList(f, nil, p);
      var left;
      id, left := Seek(p, index);
      ids := [];
      assert before + [] == before;
      SeekStops(before, index, left, nil);
      if id == nil {
        left := left + 1;
      }
      ghost var total: nat := left;
      assert total == if index < |before| then 0 else index + 1 - |before|;
      while left > 0
        invariant total == 0 ==> id == Link(before, index, nil) && id != nil
        invariant Whole() && strays == old(strays) && p in forest.lists && forest.lists[p] == before + ids
        invariant old(overflowed) ==> overflowed
        invariant if ids == [] then forest == f else Grown(f, forest, p, ids) && id == ids[|ids| - 1] && id != nil
        decreases left
        invariant |ids| + left == total
      {
        ghost var g := forest;
        var ok := memory(left);
        id := AddSlot(p, ok.0, ok.1);
        if id == nil {
          return;
        }
        GrownTwice(f, g, forest, p, ids, id);
        Associates(before, ids, [id]);
        ids := ids + [id];
        left := left - 1;
      }
      assert total > 0 ==> (before + ids)[index] == ids[|ids| - 1];
    }

    /** CollectionData::getPreviousSlot. */
    method GetPreviousSlot(p: Place, target: SlotId, ghost k: nat) returns (prev: SlotId)
      requires Valid() && p in forest.lists && p !in forest.open && k < |forest.lists[p]|
               && target == forest.lists[p][k]
      ensures prev == if k == 0 then nil else forest.lists[p][k - 1]
    {
      hide Placed, Chained, Ended, Owned, Deep, OwnersCount, Consistent, Distinct, Reduced;
      ListIsHere(forest, nil, p);
      NoNilInList(forest, nil, p);
      NoRepeatsInList(forest, p);
      var d := DataOf(p);
      prev := nil;
      var current := d.head;
      ghost var j: nat := 0;
      while current != nil
        invariant j <= k && current == forest.lists[p][j]
        invariant prev == if j == 0 then nil else forest.lists[p][j - 1]
        decreases k - j
      {
        LinkSlot(forest, nil, p, j);
        var slot := variantPools.GetSlot(current);
        if current == target {
          return;
        }
        prev := current;
        current := slot.next;
        j := j + 1;
      }
    }

    /** Takes a slot out of its list. */
    method Unlink(p: Place, id: SlotId, ghost k: nat)
      requires Valid() && CanUnlink(forest, nil, p, k) && id == forest.lists[p][k]
      modifies this`data, this`forest, variantPools
      ensures Valid() && CanUnlink(old(forest), nil, p, k) && forest == Unlinked(old(forest), nil, p, k)
    {
      hide Placed, Chained, Ended, Owned, Deep, OwnersCount, Consistent, Distinct, Reduced, Unlinked, WithNext,
          WithData;
      ghost var g := UnlinkPlan(stringPool.strings, forest, nil, dropped, strays, p, k);
      var prev := GetPreviousSlot(p, id, k);
      var slot := variantPools.GetSlot(id);
      var next := slot.next;
      var d := DataOf(p);
      if prev != nil {
        WriteNext(prev, next);
      }
      WriteData(p, WithEnds(d, if prev != nil then d.head else next, if next == nil then prev else d.tail));
      forest := g;
    }

    /** CollectionData::remove. */
    method Remove(p: Place, id: SlotId, ghost k: nat) returns (ghost F: set<SlotId>)
      requires Whole() && p in forest.lists && k < |forest.lists[p]| && id == forest.lists[p][k]
      modifies this`data, this`forest, this`dropped, variantPools, stringPool
      ensures Whole() && strays == old(strays)
      ensures CanUnlink(old(forest), nil, p, k) && Closure(Unlinked(old(forest), nil, p, k), {id}, F)
      ensures forest == Pruned(Unlinked(old(forest), nil, p, k), F)
      ensures Reduced(old(stringPool.strings), stringPool.strings)
    {
      hide Placed, Chained, Ended, Owned, Deep, OwnersCount, Consistent, Distinct, Reduced, Unlinked, Pruned, Closure;
      ghost var f := forest;
      Unlink(p, id, k);
      UnlinkedFields(f, nil, p, k);
      F := ReleaseSlot(id);
      PrunedFields(Unlinked(f, nil, p, k), id, F);
    }

    /** ArrayData::removeElement: nothing behind the last element. */
    method RemoveElement(p: Place, index: nat) returns (ghost F: set<SlotId>)
      requires Whole() && p in forest.lists
      modifies this`data, this`forest, this`dropped, variantPools, stringPool
      ensures Whole() && strays == old(strays)
      ensures index >= |old(forest.lists[p])| ==> forest == old(forest)
      ensures index < |old(forest.lists[p])| ==> Shortened(old(forest), forest, p, index, F)
      ensures TextsStay(old(stringPool.strings), stringPool.strings, forest.h, forest.root)
    {
      hide Placed, Chained, Ended, Owned, Deep, OwnersCount, Consistent, Distinct, Reduced, TextsStay, Unlinked,
          Pruned, Closure, Shortened;
      ghost var f, strings := forest, stringPool.strings;
      NothingReduced(strings);
      NoNilInList(f, nil, p);
      var id := At(p, index);
      F := {};
      if id != nil {
        F := Remove(p, id, index);
        RemovedSays(f, nil, p, index, F);
      }
      OwnedTextsStay(strings, stringPool.strings, forest.h, forest.root, strays);
    }

    // Values.

    /** VariantData::toArray and toObject: an empty collection in place of what
        was there. */
    method MakeCollection(p: Place, isArray: bool) returns (ghost F: set<SlotId>, ghost g: Forest)
      requires Whole() && HasPlace(forest, p)
      modifies this`data, this`forest, this`dropped, variantPools, stringPool
      ensures p == Root && !old(data).IsCollection() ==> unchanged(variantPools)
      ensures Whole() && strays == old(strays)
      ensures Nullified(old(forest), g, nil, p, F) && HasPlace(g, p)
      ensures forest == Replaced(g, p, if isArray then Array(nil, nil) else Object(nil, nil))
      ensures TextsStay(old(stringPool.strings), stringPool.strings, g.h, g.root)
    {
      hide Placed, Chained, Ended, Owned, Deep, OwnersCount, Consistent, Distinct, Reduced, TextsStay, Replaced,
          Nullified, OpenAbove;
      ghost var f := forest;
      ghost var strings := stringPool.strings;
      NothingOpen(f, p);
      F := SetNull(p);
      NullifiedIsEmpty(f, forest, nil, p, F);
      OwnedTextsStay(strings, stringPool.strings, forest.h, forest.root, strays);
      g := forest;
      var d := if isArray then Array(nil, nil) else Object(nil, nil);
      ReplacedIsValid(g, nil, p, d);
      CountsAfterForgetting(stringPool.strings, g, dropped, strays, p, d);
      ReplacedFields(g, p, d);
      WriteData(p, d);
      forest := Replaced(g, p, d);
    }

    /** VariantData::setString with a string that is copied: null, then the string
        from the pool, which has one of its own or makes one if there is memory. */
    method SetString(p: Place, text: bytes, ok: bool)
      returns (node: Option<Address>, ghost F: set<SlotId>, ghost g: Forest)
      requires Whole() && HasPlace(forest, p)
      modifies this`data, this`forest, this`dropped, this`overflowed, variantPools, stringPool
      ensures old(overflowed) ==> overflowed
      ensures Whole() && strays == old(strays)
      ensures Nullified(old(forest), g, nil, p, F) && HasPlace(g, p)
      ensures node.Some? ==> TextOf(stringPool.strings, node.value) == Some(text)
                             && forest == Replaced(g, p, OwnedString(node.value))
      ensures node.None? ==> forest == g && overflowed
      ensures TextsStay(old(stringPool.strings), stringPool.strings, g.h, g.root)
      ensures ok ==> node.Some?
    {
      hide Placed, Chained, Ended, Owned, Deep, OwnersCount, Consistent, Distinct, Reduced, TextsStay, Replaced,
          Nullified, OpenAbove;
      ghost var f, before := forest, stringPool.strings;
      NothingOpen(f, p);
      F := SetNull(p);
      NullifiedIsEmpty(f, forest, nil, p, F);
      g := forest;
      node := OwnString(p, text, ok, before);
    }

    /** A null takes a value that owns nothing. */
    method StoreScalar(p: Place, value: Scalar)
      requires Whole() && HasPlace(forest, p) && DataAt(forest, p) == Nothing() && p !in forest.lists
      modifies this`data, this`forest, variantPools
      ensures Whole() && forest == Replaced(old(forest), p, Simple(value))
    {
      hide Forests.Valid, OwnersCount, Consistent, Distinct, Replaced;
      ghost var g := forest;
      CountsAfterForgetting(stringPool.strings, g, dropped, strays, p, Simple(value));
      ReplacedIsValid(g, nil, p, Simple(value));
      ReplacedFields(g, p, Simple(value));
      WriteData(p, Simple(value));
      forest := Replaced(g, p, Simple(value));
    }

    /** A null takes a string from the pool. */
    method OwnString(p: Place, text: bytes, ok: bool, ghost before: seq<StringNode>) returns (node: Option<Address>)
      requires Whole() && HasPlace(forest, p) && DataAt(forest, p) == Nothing() && p !in forest.lists
      requires Reduced(before, stringPool.strings)
      modifies this`data, this`forest, this`overflowed, variantPools, stringPool
      ensures old(overflowed) ==> overflowed
      ensures Whole() && (ok ==> node.Some?)
      ensures node.Some? ==>
                && TextOf(stringPool.strings, node.value) == Some(text)
                && forest == Replaced(old(forest), p, OwnedString(node.value))
      ensures node.None? ==> forest == old(forest) && overflowed
      ensures TextsStay(before, stringPool.strings, old(forest.h), old(forest.root))
    {
      hide Forests.Valid, OwnersCount, Consistent, Distinct, Reduced, TextsStay, Replaced;
      ghost var g, strings := forest, stringPool.strings;
      node := stringPool.Add(text, ok);
      TextsStayAfterAdding(before, strings, stringPool.strings, g.h, g.root, strays, text, node);
      if node.Some? {
        CountsAfterTaking(strings, stringPool.strings, g, dropped, strays, p, node.value);
        ReplacedIsValid(g, nil, p, OwnedString(node.value));
        ReplacedFields(g, p, OwnedString(node.value));
        WriteData(p, OwnedString(node.value));
        forest := Replaced(g, p, OwnedString(node.value));
      } else {
        overflowed := true;
      }
    }

    /** The key of a member is saved before there is a slot to own it. */
    method SaveKey(key: bytes, ok: bool) returns (node: Option<Address>)
      requires Whole()
      modifies this`overflowed, this`strays, stringPool
      ensures Whole() && (old(overflowed) ==> overflowed)
      ensures node.Some? <==> KeyIsSaved(old(stringPool.strings), key, ok)
      ensures node.None? ==> overflowed && strays == old(strays)
      ensures node.Some? ==> Find(stringPool.strings, key) == node
                             && TextOf(stringPool.strings, node.value) == Some(key)
      ensures node.Some? ==> strays == old(strays) + multiset{node.value}
      ensures node.Some? ==>
                forall a: Address :: Refs(stringPool.strings, a) == Refs(old(stringPool.strings),
                    a) + OneIf(node.value == a)
      ensures TextsStay(old(stringPool.strings), stringPool.strings, forest.h, forest.root)
    {
      hide Forests.Valid, OwnersCount, Consistent, Distinct, Reduced, TextsStay;
      ghost var strings := stringPool.strings;
      node := stringPool.Add(key, ok);
      NothingReduced(strings);
      TextsStayAfterAdding(strings, strings, stringPool.strings, forest.h, forest.root, strays, key, node);
      if node.None? {
        overflowed := true;
      } else {
        CountsWithStray(strings, stringPool.strings, forest.h, forest.root, dropped, strays, node.value);
        FoundIsThere(stringPool.strings, key, node.value);
        strays := strays + multiset{node.value};
      }
    }

    /** What a deserializer does with the key of a member: the string is saved, then
        a slot is added and named. Without a slot the reference is nobody's. */
    method AddMember(p: Place, key: bytes, ok: bool, growOk: bool, poolOk: bool) returns (id: SlotId)
      requires Whole() && p in forest.lists
      modifies this`data, this`forest, this`overflowed, this`strays, variantPools, stringPool
      ensures !poolOk && old(variantPools.pools) == [] && old(variantPools.free) == [] ==> id == nil
      ensures old(overflowed) ==> overflowed
      ensures Whole()
      ensures id == nil ==> forest == old(forest) && overflowed
      ensures id != nil ==> strays == old(strays) && Named(old(forest), forest, stringPool.strings, p, id, key)
      ensures KeyIsSaved(old(stringPool.strings), key, ok) ==> Find(stringPool.strings, key).Some?
      ensures id == nil ==>
                strays == old(strays) + if KeyIsSaved(old(stringPool.strings), key, ok)
                                        then multiset{Find(stringPool.strings, key).value} else multiset{}
      ensures TextsStay(old(stringPool.strings), stringPool.strings, old(forest.h), old(forest.root))
    {
      hide Forests.Valid, OwnersCount, Consistent, Distinct, Reduced, TextsStay, Grown, Named;
      ghost var f, strings, before := forest, stringPool.strings, strays;
      var node := SaveKey(key, ok);
      if node.None? {
        return nil;
      }
      id := AddSlot(p, growOk, poolOk);
      if id != nil {
        ListsHere(f, forest, nil, p, id);
        SetKey(f, strings, before, p, id, node.value);
        NamedSays(f, forest, stringPool.strings, p, id, key, node.value);
      }
    }

    /** The key's reference, counted before, gets its owner. */
    method SetKey(ghost f: Forest, ghost strings: seq<StringNode>, ghost before: Strays, p: Place, id: SlotId,
                  node: Address)
      requires Whole() && Grown(f, forest, p, [id]) && OwnersCount(strings, f.h, f.root, {}, before)
      requires p in f.lists && HasPlace(f, p) && DataAt(f, p).IsCollection() && HasPlace(forest, p)
               && DataAt(forest, p).IsCollection()
      requires forall a: Address :: Refs(stringPool.strings, a) == Refs(strings, a) + OneIf(node == a)
      modifies this`forest, this`strays, variantPools
      ensures Whole() && strays == before
      ensures id in old(forest.h) && forest == WithKey(old(forest), id, OwnedKey(node))
              && WithKey(forest, id, NoKey) == old(forest)
    {
      hide Placed, Chained, Ended, Owned, Deep, OwnersCount, Consistent, Distinct, Reduced;
      assert id in forest.h && forest.h[id].key == NoKey;
      hide Grown;
      CountsAfterGrowing(strings, f, forest, p, id, before);
      CountsAfterNaming(strings, stringPool.strings, forest.h, forest.root, dropped, before, id, node);
      KeyedIsValid(forest, nil, id, OwnedKey(node));
      var slot := variantPools.GetSlot(id);
      variantPools.SetSlot(id, slot.(key := OwnedKey(node)));
      KeyAndBack(forest, id, OwnedKey(node));
      forest := WithKey(forest, id, OwnedKey(node));
      strays := before;
    }

    /** Clearing the root frees every slot, and no string is left either, unless
        there are references that nobody owns. */
    method ClearRoot()
      requires Whole()
      modifies this`data, this`forest, this`dropped, variantPools, stringPool
      ensures Whole() && strays == old(strays) && data == Nothing()
      ensures forest.h == map[] && variantPools.used == map[]
      ensures stringPool.strings == [] <==> strays == multiset{}
    {
      hide Placed, Chained, Ended, Owned, Deep, OwnersCount, Consistent, Distinct, Reduced, Nullified, OpenAbove;
      ghost var f := forest;
      NothingOpen(f, Root);
      ghost var F := SetNull(Root);
      NullifiedIsEmpty(f, forest, nil, Root, F);
      NothingIsLeft(f, forest, nil, F);
      NoOwnersNoStrings(stringPool.strings, forest.root, strays);
    }
  }

  /** A reference that nobody owns: a key is saved, and there is no memory for its
      member. When the root is cleared the string is still there. */
  method KeyStays(config: Config, key: bytes) returns (doc: JsonDocument)
    requires config.Good()
    ensures fresh(doc) && doc.Whole() && doc.data == Nothing() && doc.forest.h == map[]
    ensures |doc.strays| == 1 && doc.stringPool.strings != []
  {
    hide Forests.Valid, OwnersCount, Consistent, Distinct, Nullified;
    doc := new JsonDocument(config);
    ghost var F, g := doc.MakeCollection(Root, false);
    var id := doc.AddMember(Root, key, true, true, false);
    doc.ClearRoot();
  }

  lemma OutIsHere(f: Forest, nil: SlotId, id: SlotId)
    requires Forests.Valid(f, nil) && id in f.out
    ensures id in f.h
  {
  }

  lemma NoListHere(f: Forest, p: Place)
    requires Placed(f) && HasPlace(f, p) && !DataAt(f, p).IsCollection()
    ensures p !in f.lists && f.lists - {p} == f.lists
  {
  }

  lemma ListIsHere(f: Forest, nil: SlotId, p: Place)
    requires Forests.Valid(f, nil) && p in f.lists && p !in f.open
    ensures HasPlace(f, p) && DataAt(f, p).IsCollection() && DataAt(f, p).head == Link(f.lists[p], 0, nil)
  {
  }

  /** The slot whose turn it is. */
  lemma CurrentIs(f: Forest, nil: SlotId, p: Place, k: nat, F: set<SlotId>, currId: SlotId)
    requires Forests.Valid(f, nil) && p in f.lists && k <= |f.lists[p]| && OpenAbove(f, p) && (p.In? ==> p.id !in F)
    requires currId == Link(f.lists[p], k, nil) != nil && Closure(f, SetOf(f.lists[p][..k]), F)
    ensures k < |f.lists[p]| && f.lists[p][k] == currId && currId !in F
    ensures var c := Clearing(f, p, f.lists[p], k, F);
            p in c.lists && p in c.open && c.lists[p] != [] && c.lists[p][0] == currId
            && Link(c.lists[p], 1, nil) == Link(f.lists[p], k + 1, nil)
            && c.limit == f.limit && Level(c, p) == Level(f, p)
            && (forall q <- c.open :: q == p || Level(c, q) < Level(c, p))
  {
    hide Placed, Chained, Ended, Owned, Deep, Closure, SetOf;
    LinkIsInList(f.lists[p], k, nil);
    CurrentIsLeft(f, p, k, F);
  }

  lemma LinkIsInList(ids: seq<SlotId>, k: nat, nil: SlotId)
    requires k <= |ids| && Link(ids, k, nil) != nil
    ensures k < |ids| && ids[k] == Link(ids, k, nil)
  {
  }

  /** A child lies below everything that is open. */
  lemma FirstIsDeeper(f: Forest, nil: SlotId, p: Place)
    requires Forests.Valid(f, nil) && p in f.lists && f.lists[p] != [] && p in f.open
    requires forall q <- f.open :: q == p || Level(f, q) < Level(f, p)
    ensures var id, d := f.lists[p][0], Detached(f, p);
            && id in f.h && f.h[id].next == Link(f.lists[p], 1, nil) && id !in f.out
            && Level(f, p) < Level(f, In(id)) <= f.limit && In(id) !in f.open
            && id in d.out && d.open == f.open && d.limit == f.limit && Level(d, In(id)) == Level(f, In(id))
            && OpenAbove(d, In(id))
  {
    var id := f.lists[p][0];
    InTheList(f, p, id);
    assert f.lists[p][0] in f.h;
  }

  lemma ClearedFirst(f: Forest, nil: SlotId, p: Place, k: nat, F: set<SlotId>, G: set<SlotId>)
    requires Forests.Valid(f, nil) && p in f.lists && k < |f.lists[p]| && (p.In? ==> p.id !in F)
    requires Closure(f, SetOf(f.lists[p][..k]), F) && f.lists[p][k] !in F
    requires var c := Clearing(f, p, f.lists[p], k, F);
             Deep(c) && c.lists[p] != [] && Closure(Detached(c, p), {f.lists[p][k]}, G)
    ensures var c := Clearing(f, p, f.lists[p], k, F);
            Pruned(Detached(c, p), G) == Clearing(f, p, f.lists[p], k + 1, F + G)
    ensures Closure(f, SetOf(f.lists[p][..k + 1]), F + G) && (p.In? ==> p.id !in F + G)
  {
    var d := Detached(Clearing(f, p, f.lists[p], k, F), p);
    var id := f.lists[p][k];
    InTheList(f, p, id);
    if p.In? && p.id in G {
      UnderIsDeeper(d, {id}, G, f.depth[p.id], p.id);
    }
    ClearingGoesOn(f, p, k, F, G);
    ClosureGoesOn(f, p, k, F, G);
  }

  lemma CurrentIsLeft(f: Forest, p: Place, k: nat, F: set<SlotId>)
    requires Owned(f) && p in f.lists && k < |f.lists[p]| && (p.In? ==> p.id !in F)
    requires Closure(f, SetOf(f.lists[p][..k]), F)
    ensures f.lists[p][k] !in F
  {
    InTheList(f, p, f.lists[p][k]);
    assert f.lists[p][k] !in f.lists[p][..k] by {
      assert NoRepeats(f.lists[p]);
    }
  }

  lemma LinkIsNoNil(f: Forest, nil: SlotId, p: Place, k: nat)
    requires Chained(f, nil) && p in f.lists
    ensures k < |f.lists[p]| ==> Link(f.lists[p], k, nil) != nil
  {
    if k < |f.lists[p]| {
      assert f.lists[p][k] in f.h;
    }
  }

  lemma AllCleared(f: Forest, nil: SlotId, p: Place, k: nat, F: set<SlotId>)
    requires Chained(f, nil) && p in f.lists && k <= |f.lists[p]| && Link(f.lists[p], k, nil) == nil
    requires p !in f.open && (p.In? ==> p.id in f.h && p.id !in F) && DataAt(f, p).IsCollection()
    requires Closure(f, SetOf(f.lists[p][..k]), F)
    ensures k == |f.lists[p]| && Closure(f, SetOf(f.lists[p]), F)
    ensures var c := Clearing(f, p, f.lists[p], k, F);
            && HasPlace(c, p) && p in c.lists && c.lists[p] == [] && DataAt(c, p) == DataAt(f, p)
            && WithData(c, p, WithEnds(DataAt(f, p), nil, nil)).(open := c.open - {p}) == Cleared(f, nil, p, F)
  {
    LinkIsNoNil(f, nil, p, k);
    ClearingEnds(f, nil, p, F);
  }

  /** Nothing that was out is gone, but what was to be released. */
  lemma OutStays(f: Forest, S: set<SlotId>, F: set<SlotId>, x: SlotId)
    requires Owned(f) && Closure(f, S, F) && x in f.out && x !in S
    ensures x !in F
  {
  }

  lemma SlotReleased(f: Forest, g: Forest, nil: SlotId, id: SlotId, G: set<SlotId>)
    requires Owned(f) && Placed(f) && id in f.out && id in f.h && Nullified(f, g, nil, In(id), G)
    ensures Closure(f, {id}, G + {id}) && Dropped(g, id) == Pruned(f, G + {id})
    ensures id in g.h && id in g.out && In(id) !in g.lists && g.h[id].data == Nothing()
  {
    if In(id) in f.lists {
      NodeReleased(f, nil, id, G, Nothing());
      OutStays(f, SetOf(f.lists[In(id)]), G, id);
    } else {
      LeafReleased(f, id);
      assert Dropped(g, id).h == Dropped(f, id).h;
      assert f.lists - {In(id)} == f.lists;
      assert {} + {id} == {id};
    }
  }

  lemma TailIsLast(f: Forest, nil: SlotId, p: Place)
    requires Forests.Valid(f, nil) && p in f.lists && p !in f.open
    ensures HasPlace(f, p) && DataAt(f, p).IsCollection()
    ensures var ids, tail := f.lists[p], DataAt(f, p).tail;
            if ids == [] then tail == nil else tail == ids[|ids| - 1] && tail in f.h && tail != nil
  {
    if f.lists[p] != [] {
      assert f.lists[p][|f.lists[p]| - 1] in f.h;
    }
  }

  lemma CountsAfterAppending(strings: seq<StringNode>, f: Forest, nil: SlotId, dropped: set<SlotId>, strays: Strays,
                             p: Place, id: SlotId)
    requires CanAppend(f, nil, p, id) && OwnersCount(strings, f.h, f.root, dropped, strays)
    ensures var g := Appended(f, nil, p, id); OwnersCount(strings, g.h, g.root, dropped, strays)
  {
    hide Placed, Chained, Ended, Owned, Deep, OwnersCount, EndsAt;
    AppendIsDefined(f, nil, p, id);
    var ids := f.lists[p];
    var d := DataAt(f, p);
    var g := if ids == [] then f else WithNext(f, ids[|ids| - 1], id);
    var e := WithEnds(d, if ids == [] then id else d.head, id);
    assert Appended(f, nil, p, id).h == WithData(g, p, e).h && Appended(f, nil, p, id).root == WithData(g, p, e).root;
    hide Appended, CanAppend, EndsAt;
    if ids != [] {
      CountsAfterLinking(strings, f, dropped, strays, ids[|ids| - 1], id);
    }
    CountsAfterForgetting(strings, g, dropped, strays, p, e);
  }

  lemma AppendedSteps(f: Forest, nil: SlotId, p: Place, id: SlotId)
    requires CanAppend(f, nil, p, id)
    ensures HasPlace(f, p) && DataAt(f, p).IsCollection() && (DataAt(f, p).tail != nil ==> DataAt(f, p).tail in f.h)
    ensures var d, g := DataAt(f, p), Appended(f, nil, p, id);
            var s := if d.tail != nil then WithData(WithNext(f, d.tail, id), p, WithEnds(d, d.head, id))
                     else WithData(f, p, WithEnds(d, id, id));
            g.h == s.h && g.root == s.root
  {
    hide Forests.Valid, EndsAt, Link, WithNext, WithData, WithEnds;
    AppendIsDefined(f, nil, p, id);
    TailIsLast(f, nil, p);
    hide CanAppend;
  }

  /** All that holds when a slot has been appended, and the steps to get there. */
  lemma AppendPlan(strings: seq<StringNode>, f: Forest, nil: SlotId, dropped: set<SlotId>, strays: Strays, p: Place,
                   id: SlotId)
    returns (g: Forest)
    requires CanAppend(f, nil, p, id) && OwnersCount(strings, f.h, f.root, dropped, strays)
    requires dropped <= f.out && id !in dropped
    ensures g == Appended(f, nil, p, id)
    ensures Forests.Valid(g, nil) && dropped <= g.out && OwnersCount(strings, g.h, g.root, dropped, strays)
    ensures HasPlace(f, p) && DataAt(f, p).IsCollection() && (DataAt(f, p).tail != nil ==> DataAt(f, p).tail in f.h)
    ensures var d := DataAt(f, p);
            var s := if d.tail != nil then WithData(WithNext(f, d.tail, id), p, WithEnds(d, d.head, id))
                     else WithData(f, p, WithEnds(d, id, id));
            g.h == s.h && g.root == s.root
  {
    g := Appended(f, nil, p, id);
    AppendedIsValid(f, nil, p, id);
    CountsAfterAppending(strings, f, nil, dropped, strays, p, id);
    AppendedSteps(f, nil, p, id);
    AppendedFields(f, nil, p, id);
    hide Placed, Chained, Ended, Owned, Deep, OwnersCount, Appended;
  }

  lemma CanAppendFresh(f: Forest, nil: SlotId, p: Place, id: SlotId)
    requires Forests.Valid(f, nil) && f.open == {} && p in f.lists && id !in f.h && id != nil
    requires Forests.Valid(Fresh(f, id, FreshSlot(nil)), nil)
    ensures CanAppend(Fresh(f, id, FreshSlot(nil)), nil, p, id)
    ensures f.out == {} ==> Appended(Fresh(f, id, FreshSlot(nil)), nil, p, id).out == {}
    ensures Appended(Fresh(f, id, FreshSlot(nil)), nil, p, id).open == {}
  {
    assert In(id) !in f.lists;
    AppendedFields(Fresh(f, id, FreshSlot(nil)), nil, p, id);
  }

  lemma NotAPlaceYet(f: Forest, p: Place, id: SlotId)
    requires Placed(f) && p in f.lists && id !in f.h
    ensures p != In(id)
  {
  }

  lemma GrownByOne(f: Forest, nil: SlotId, p: Place, id: SlotId)
    requires Forests.Valid(f, nil) && f.open == {} && p in f.lists && id !in f.h && id != nil
    requires CanAppend(Fresh(f, id, FreshSlot(nil)), nil, p, id)
    ensures Grown(f, Appended(Fresh(f, id, FreshSlot(nil)), nil, p, id), p, [id])
  {
    hide Placed, Chained, Ended, Owned, Deep, Appended, EndsAt;
    var e := Fresh(f, id, FreshSlot(nil));
    var g := Appended(e, nil, p, id);
    NotAPlaceYet(f, p, id);
    AppendedFields(e, nil, p, id);
    AppendedData(e, nil, p, id);
    AppendedKeys(e, nil, p, id);
    hide CanAppend;
    assert DataAt(g, In(id)) == DataAt(e, In(id)) == Nothing();
    assert g.lists == f.lists[p := f.lists[p] + [id]];
    assert g.h[id].key == e.h[id].key == NoKey;
    assert id in g.h && g.h[id].data == Nothing();
    hide FreshSlot, Nothing;
    forall q | HasPlace(f, q) && q != p ensures DataAt(g, q) == DataAt(f, q) {
      assert HasPlace(e, q) && DataAt(e, q) == DataAt(f, q);
    }
    forall x | x in g.h ensures if x in f.h then g.h[x].key == f.h[x].key else x == id {
      assert x in e.h;
    }
  }

  lemma AppendedKeys(f: Forest, nil: SlotId, p: Place, id: SlotId)
    requires CanAppend(f, nil, p, id)
    ensures var g := Appended(f, nil, p, id);
            g.h.Keys == f.h.Keys && forall x <- f.h :: g.h[x].key == f.h[x].key
  {
    AppendIsDefined(f, nil, p, id);
  }

  lemma LinkSlot(f: Forest, nil: SlotId, p: Place, k: nat)
    requires Chained(f, nil) && p in f.lists && Link(f.lists[p], k, nil) != nil
    ensures k < |f.lists[p]| && f.lists[p][k] == Link(f.lists[p], k, nil) && f.lists[p][k] in f.h
    ensures f.h[f.lists[p][k]].next == Link(f.lists[p], k + 1, nil)
  {
    assert f.lists[p][k] in f.h;
  }

  lemma LinkEnds(ids: seq<SlotId>, k: nat, index: nat, nil: SlotId)
    requires k <= index && (k == index || (Link(ids, k, nil) == nil && nil !in ids))
    ensures Link(ids, k, nil) == Link(ids, index, nil)
  {
  }

  lemma NoNilInList(f: Forest, nil: SlotId, p: Place)
    requires Chained(f, nil) && p in f.lists
    ensures nil !in f.lists[p]
  {
    forall k | 0 <= k < |f.lists[p]| ensures f.lists[p][k] != nil {
      assert f.lists[p][k] in f.h;
    }
  }

  /** One slot more behind the new ones. */
  lemma GrownTwice(f: Forest, g: Forest, h: Forest, p: Place, ids: seq<SlotId>, id: SlotId)
    requires p in f.lists && (p.In? ==> p.id in f.h)
    requires if ids == [] then g == f else Grown(f, g, p, ids)
    requires Grown(g, h, p, [id])
    ensures Grown(f, h, p, ids + [id]) && h.lists[p] == g.lists[p] + [id]
  {
    if ids == [] {
      assert [] + [id] == [id];
    } else {
      GrownOn(f, g, h, p, ids, id);
    }
  }

  lemma GrownOn(f: Forest, g: Forest, h: Forest, p: Place, ids: seq<SlotId>, id: SlotId)
    requires HasPlace(f, p) && Grown(f, g, p, ids) && Grown(g, h, p, [id])
    ensures Grown(f, h, p, ids + [id]) && h.lists[p] == g.lists[p] + [id]
  {
    var more := ids + [id];
    assert forall x :: x in more <==> x in ids || x == id;
    Associates(f.lists[p], ids, [id]);
    assert g.lists[p] == f.lists[p] + ids;
    assert h.lists == f.lists[p := f.lists[p] + more];
    assert HasPlace(f, In(id)) ==> HasPlace(g, In(id));
    forall x | x in ids ensures x in h.h && h.h[x].data == Nothing() && h.h[x].key == NoKey {
      assert HasPlace(g, In(x)) && DataAt(h, In(x)) == DataAt(g, In(x));
    }
  }

  lemma SeekStops(ids: seq<SlotId>, index: nat, left: nat, nil: SlotId)
    requires left <= index && index - left <= |ids| && nil !in ids
    ensures Link(ids, index - left, nil) == nil <==> index - left == |ids|
  {
  }

  lemma NoRepeatsInList(f: Forest, p: Place)
    requires Owned(f) && p in f.lists
    ensures NoRepeats(f.lists[p])
  {
  }

  lemma CountsAfterUnlinking(strings: seq<StringNode>, f: Forest, nil: SlotId, dropped: set<SlotId>, strays: Strays,
                             p: Place, k: nat)
    requires CanUnlink(f, nil, p, k) && OwnersCount(strings, f.h, f.root, dropped, strays)
    ensures var g := Unlinked(f, nil, p, k); OwnersCount(strings, g.h, g.root, dropped, strays)
  {
    hide Placed, Chained, Ended, Owned, Deep, OwnersCount, EndsAt;
    UnlinkIsDefined(f, nil, p, k);
    var ids := f.lists[p];
    var next := f.h[ids[k]].next;
    var d := DataAt(f, p);
    var prev := if k == 0 then nil else ids[k - 1];
    var g := if k == 0 then f else WithNext(f, prev, next);
    var e := WithEnds(d, if k == 0 then next else d.head, if next == nil then prev else d.tail);
    assert Unlinked(f, nil, p, k).h == WithData(g, p, e).h && Unlinked(f, nil, p, k).root == WithData(g, p, e).root;
    hide Unlinked, CanUnlink;
    if k > 0 {
      CountsAfterLinking(strings, f, dropped, strays, prev, next);
    }
    CountsAfterForgetting(strings, g, dropped, strays, p, e);
  }

  /** All that holds when a slot has been taken out, and the steps to get there. */
  lemma UnlinkPlan(strings: seq<StringNode>, f: Forest, nil: SlotId, dropped: set<SlotId>, strays: Strays, p: Place,
                   k: nat)
    returns (g: Forest)
    requires CanUnlink(f, nil, p, k) && OwnersCount(strings, f.h, f.root, dropped, strays) && dropped <= f.out
    ensures g == Unlinked(f, nil, p, k)
    ensures Forests.Valid(g, nil) && dropped <= g.out && OwnersCount(strings, g.h, g.root, dropped, strays)
    ensures HasPlace(f, p) && DataAt(f, p).IsCollection()
    ensures var id, prev := f.lists[p][k], if k == 0 then nil else f.lists[p][k - 1];
            id in f.h && (k > 0 ==> prev in f.h && prev != nil)
            && var d, next := DataAt(f, p), f.h[id].next;
               var s := if prev != nil then WithNext(f, prev, next) else f;
               HasPlace(s, p)
               && var t := WithData(s, p, WithEnds(d, if prev != nil then d.head else next,
                                                   if next == nil then prev else d.tail));
                  g.h == t.h && g.root == t.root
  {
    hide Placed, Chained, Ended, Owned, Deep, OwnersCount, EndsAt;
    g := Unlinked(f, nil, p, k);
    UnlinkIsDefined(f, nil, p, k);
    UnlinkedIsValid(f, nil, p, k);
    CountsAfterUnlinking(strings, f, nil, dropped, strays, p, k);
    UnlinkedFields(f, nil, p, k);
  }

  lemma PrunedFields(f: Forest, id: SlotId, F: set<SlotId>)
    requires Closure(f, {id}, F) && f.out == {id}
    ensures Pruned(f, F).out == {} && Pruned(f, F).open == f.open
  {
  }

  lemma NotUnderItself(f: Forest, nil: SlotId, p: Place, k: nat, F: set<SlotId>)
    requires CanUnlink(f, nil, p, k) && Closure(Unlinked(f, nil, p, k), {f.lists[p][k]}, F)
    ensures p.In? ==> p.id !in F
  {
    hide Unlinked, Cut, CutEnds, Placed, Chained, Ended, Listed, Assigned, NoRepeats, Closure, EndsAt;
    var id := f.lists[p][k];
    UnlinkedFields(f, nil, p, k);
    UnlinkedIsValid(f, nil, p, k);
    InTheList(f, p, id);
    UnlinkIsDefined(f, nil, p, k);
    if p.In? && p.id in F {
      UnderIsDeeper(Unlinked(f, nil, p, k), {id}, F, f.depth[p.id], p.id);
    }
  }

  lemma UnlinkedKeys(f: Forest, nil: SlotId, p: Place, k: nat)
    requires CanUnlink(f, nil, p, k)
    ensures forall x <- f.h :: x in Unlinked(f, nil, p, k).h && Unlinked(f, nil, p, k).h[x].key == f.h[x].key
  {
    hide Placed, Chained, Ended, Owned, Deep, CanUnlink, EndsAt, Link;
    UnlinkIsDefined(f, nil, p, k);
  }

  lemma RemovedSays(f: Forest, nil: SlotId, p: Place, k: nat, F: set<SlotId>)
    requires CanUnlink(f, nil, p, k) && Closure(Unlinked(f, nil, p, k), {f.lists[p][k]}, F)
    ensures Shortened(f, Pruned(Unlinked(f, nil, p, k), F), p, k, F)
  {
    hide Placed, Chained, Ended, Owned, Deep, Unlinked, CutEnds, Cut;
    NotUnderItself(f, nil, p, k, F);
    UnlinkedFields(f, nil, p, k);
    UnlinkedData(f, nil, p, k);
    UnlinkedEnds(f, nil, p, k);
    UnlinkedKeys(f, nil, p, k);
    ItsOwnerIs(f, nil, p, k);
    var g := Unlinked(f, nil, p, k);
    hide CanUnlink;
    assert Pruned(g, F).lists == Without(f.lists, F)[p := Cut(f.lists[p], k)];
    forall q | HasPlace(Pruned(g, F), q) && q != p
      ensures HasPlace(f, q) && DataAt(Pruned(g, F), q) == DataAt(f, q)
    {
      assert HasPlace(g, q) && HasPlace(f, q);
    }
  }

  lemma ItsOwnerIs(f: Forest, nil: SlotId, p: Place, k: nat)
    requires CanUnlink(f, nil, p, k)
    ensures f.lists[p][k] in f.owner && f.owner[f.lists[p][k]] == p
  {
    InTheList(f, p, f.lists[p][k]);
  }

  lemma NothingOpen(f: Forest, p: Place)
    requires f.open == {}
    ensures OpenAbove(f, p)
  {
  }

  lemma NullifiedIsEmpty(f: Forest, g: Forest, nil: SlotId, p: Place, F: set<SlotId>)
    requires HasPlace(f, p) && f.out == {} && f.open == {} && Nullified(f, g, nil, p, F)
    ensures HasPlace(g, p) && DataAt(g, p) == Nothing() && p !in g.lists && g.out == {} && g.open == {}
  {
  }

  lemma ReplacedFields(f: Forest, p: Place, d: VariantData)
    requires HasPlace(f, p)
    ensures var g := Replaced(f, p, d); g.h == WithData(f, p, d).h && g.root == WithData(f, p, d).root
                                        && g.out == f.out && g.open == f.open
  {
  }

  lemma KeyedIsValid(f: Forest, nil: SlotId, id: SlotId, key: Key)
    requires Forests.Valid(f, nil) && id in f.h
    ensures Forests.Valid(WithKey(f, id, key), nil)
  {
    var g := WithKey(f, id, key);
    assert forall q | HasPlace(f, q) :: HasPlace(g, q) && DataAt(g, q) == DataAt(f, q);
    assert forall q :: HasPlace(g, q) <==> HasPlace(f, q);
  }

  lemma NamedSays(f: Forest, g: Forest, strings: seq<StringNode>, p: Place, id: SlotId, key: bytes, node: Address)
    requires id in g.h && g.h[id].key == OwnedKey(node) && TextOf(strings, node) == Some(key)
    requires Grown(f, WithKey(g, id, NoKey), p, [id])
    ensures Named(f, g, strings, p, id, key)
  {
  }

  lemma CountsAfterGrowing(strings: seq<StringNode>, f: Forest, g: Forest, p: Place, id: SlotId, strays: Strays)
    requires OwnersCount(strings, f.h, f.root, {}, strays) && Grown(f, g, p, [id])
    requires HasPlace(f, p) && DataAt(f, p).IsCollection() && HasPlace(g, p) && DataAt(g, p).IsCollection()
    ensures OwnersCount(strings, g.h, g.root, {}, strays)
  {
    forall a: Address ensures OwnersOf(g.h, g.root, {}, a) == OwnersOf(f.h, f.root, {}, a) {
      GrowthOwnsNothing(f, g, p, id, a);
    }
  }

  lemma GrowthOwnsNothing(f: Forest, g: Forest, p: Place, id: SlotId, a: Address)
    requires Grown(f, g, p, [id])
    requires HasPlace(f, p) && DataAt(f, p).IsCollection() && HasPlace(g, p) && DataAt(g, p).IsCollection()
    ensures OwnersOf(g.h, g.root, {}, a) == OwnersOf(f.h, f.root, {}, a)
  {
    forall x | x in f.h ensures x in g.h && g.h[x].key == f.h[x].key
        && (g.h[x].data == OwnedString(a) <==> f.h[x].data == OwnedString(a)) {
      assert HasPlace(f, In(x)) && HasPlace(g, In(x));
      assert In(x) != p ==> DataAt(g, In(x)) == DataAt(f, In(x));
    }
    assert id in [id];
    assert forall x <- g.h :: x in f.h || x == id;
    assert KeyOwners(g.h, {}, a) == KeyOwners(f.h, {}, a);
    assert ValueOwners(g.h, a) == ValueOwners(f.h, a);
    assert HasPlace(f, Root) && (p != Root ==> DataAt(g, Root) == DataAt(f, Root));
  }

  lemma NothingIsLeft(f: Forest, g: Forest, nil: SlotId, F: set<SlotId>)
    requires Forests.Valid(f, nil) && f.out == {} && Nullified(f, g, nil, Root, F)
    ensures g.h == map[]
  {
    if Root in f.lists {
      forall x | x in f.h ensures x in F {
        UnderTheRoot(f, F, x);
      }
      assert f.h - F == map[];
    } else {
      NoRootNoSlots(f);
    }
  }

  lemma CollectionHere(f: Forest, p: Place)
    requires Placed(f) && p in f.lists
    ensures HasPlace(f, p) && DataAt(f, p).IsCollection()
  {
  }

  lemma GrownHasList(f: Forest, g: Forest, p: Place, ids: seq<SlotId>)
    requires Grown(f, g, p, ids)
    ensures p in g.lists
  {
  }

  lemma ListsHere(f: Forest, g: Forest, nil: SlotId, p: Place, id: SlotId)
    requires Forests.Valid(f, nil) && Forests.Valid(g, nil) && p in f.lists && Grown(f, g, p, [id])
    ensures p in g.lists && HasPlace(f, p) && DataAt(f, p).IsCollection() && HasPlace(g, p)
            && DataAt(g, p).IsCollection()
  {
    GrownHasList(f, g, p, [id]);
    CollectionHere(f, p);
    CollectionHere(g, p);
  }

  lemma KeyAndBack(f: Forest, id: SlotId, key: Key)
    requires id in f.h && f.h[id].key == NoKey
    ensures WithKey(WithKey(f, id, key), id, NoKey) == f
  {
    assert WithKey(WithKey(f, id, key), id, NoKey).h == f.h;
  }
}

/** Nested collections threaded through slots: every slot is in exactly one list,
    and every list belongs to one value. */
module Forests {
  import opened Slots
  import opened VariantPools

  /** Where a value is: at the root of a document or in a slot. */
  datatype Place = Root | In(id: SlotId)

  /** The slots in use and the root, and what they amount to: the list of each
      collection, whose list a slot is in, and how deep it is. A slot that is out
      is in no list just now; a place that is open has a head and a tail that do
      not matter any more. */
  datatype Forest = Forest(
    h: map<SlotId, VariantSlot>, root: VariantData,
    lists: map<Place, seq<SlotId>>, owner: map<SlotId, Place>, depth: map<SlotId, nat>, limit: nat,
    out: set<SlotId>, open: set<Place>)

  predicate HasPlace(f: Forest, p: Place) {
    p == Root || p.id in f.h
  }

  function DataAt(f: Forest, p: Place): VariantData
    requires HasPlace(f, p)
  {
    if p == Root then f.root else f.h[p.id].data
  }

  function WithData(f: Forest, p: Place, d: VariantData): (r: Forest)
    requires HasPlace(f, p)
    ensures forall q :: HasPlace(r, q) == HasPlace(f, q)
    ensures forall q | HasPlace(f, q) :: DataAt(r, q) == if q == p then d else DataAt(f, q)
    ensures r.lists == f.lists && r.owner == f.owner && r.depth == f.depth && r.limit == f.limit && r.out == f.out
            && r.open == f.open
    ensures r.h.Keys == f.h.Keys
    ensures forall id <- f.h :: r.h[id].next == f.h[id].next && r.h[id].key == f.h[id].key
  {
    if p == Root then f.(root := d) else f.(h := f.h[p.id := f.h[p.id].(data := d)])
  }

  /** The places with a list are those of the collections. */
  ghost predicate Placed(f: Forest) {
    forall p: Place :: p in f.lists <==> HasPlace(f, p) && DataAt(f, p).IsCollection()
  }

  ghost predicate Chained(f: Forest, nil: SlotId) {
    && (forall id <- f.h :: id != nil)
    && (forall p <- f.lists, k | 0 <= k < |f.lists[p]| ::
          f.lists[p][k] in f.h && f.h[f.lists[p][k]].next == Link(f.lists[p], k + 1, nil))
  }

  predicate EndsAt(d: VariantData, ids: seq<SlotId>, nil: SlotId) {
    && d.IsCollection() && d.head == Link(ids, 0, nil)
    && d.tail == if ids == [] then nil else ids[|ids| - 1]
  }

  ghost predicate Ended(f: Forest, nil: SlotId) {
    forall p <- f.lists | p !in f.open && HasPlace(f, p) :: EndsAt(DataAt(f, p), f.lists[p], nil)
  }

  /** Every slot that is not out is in one list, once. */
  ghost predicate Owned(f: Forest) {
    && f.out <= f.h.Keys && f.owner.Keys == f.h.Keys - f.out
    && Listed(f) && Assigned(f)
    && forall p <- f.lists :: NoRepeats(f.lists[p])
  }

  ghost predicate Listed(f: Forest) {
    forall id <- f.owner :: f.owner[id] in f.lists && id in f.lists[f.owner[id]]
  }

  ghost predicate Assigned(f: Forest) {
    forall p <- f.lists, k | 0 <= k < |f.lists[p]| :: f.lists[p][k] in f.owner && f.owner[f.lists[p][k]] == p
  }

  ghost predicate NoRepeats(ids: seq<SlotId>) {
    forall j, k | 0 <= j < k < |ids| :: ids[j] != ids[k]
  }

  /** A slot is deeper than the slot whose list it is in. */
  ghost predicate Deep(f: Forest) {
    && (forall id <- f.h :: id in f.depth && f.depth[id] < f.limit)
    && (forall id <- f.owner | f.owner[id].In? ::
          f.owner[id].id in f.depth && id in f.depth && f.depth[f.owner[id].id] < f.depth[id])
  }

  ghost predicate Valid(f: Forest, nil: SlotId) {
    Placed(f) && Chained(f, nil) && Ended(f, nil) && Owned(f) && Deep(f)
  }

  // A value that is no collection, or an empty one, is replaced by another.

  function Replaced(f: Forest, p: Place, d: VariantData): Forest
    requires HasPlace(f, p)
  {
    WithData(f, p, d).(lists := if d.IsCollection() then f.lists[p := []] else f.lists - {p})
  }

  lemma ReplacedIsValid(f: Forest, nil: SlotId, p: Place, d: VariantData)
    requires Valid(f, nil) && HasPlace(f, p) && (p in f.lists ==> f.lists[p] == [])
    requires d.IsCollection() ==> d.head == nil && d.tail == nil
    ensures Valid(Replaced(f, p, d), nil)
  {
    ReplacedIsPlaced(f, p, d);
    ReplacedIsOwned(f, p, d);
    ReplacedIsChained(f, nil, p, d);
    ReplacedIsEnded(f, nil, p, d);
    hide Owned, Chained, Placed, Ended;
  }

  lemma ReplacedIsPlaced(f: Forest, p: Place, d: VariantData)
    requires Placed(f) && HasPlace(f, p)
    ensures Placed(Replaced(f, p, d))
  {
  }

  lemma ReplacedIsEnded(f: Forest, nil: SlotId, p: Place, d: VariantData)
    requires Ended(f, nil) && HasPlace(f, p)
    requires d.IsCollection() ==> d.head == nil && d.tail == nil
    ensures Ended(Replaced(f, p, d), nil)
  {
  }

  lemma ReplacedIsOwned(f: Forest, p: Place, d: VariantData)
    requires Owned(f) && HasPlace(f, p) && (p in f.lists ==> f.lists[p] == [])
    ensures Owned(Replaced(f, p, d))
  {
  }

  lemma ReplacedIsChained(f: Forest, nil: SlotId, p: Place, d: VariantData)
    requires Chained(f, nil) && HasPlace(f, p)
    ensures Chained(Replaced(f, p, d), nil)
  {
  }

  // The first of an open list is taken out.

  function Detached(f: Forest, p: Place): Forest
    requires p in f.lists && f.lists[p] != []
  {
    var id := f.lists[p][0];
    f.(lists := f.lists[p := f.lists[p][1..]], owner := f.owner - {id}, out := f.out + {id})
  }

  lemma DetachedIsOwned(f: Forest, p: Place)
    requires Owned(f) && p in f.lists && f.lists[p] != []
    ensures Owned(Detached(f, p))
  {
    var id := f.lists[p][0];
    var g := Detached(f, p);
    RestIsShifted(f.lists[p]);
    forall x | x in g.owner ensures g.owner[x] in g.lists && x in g.lists[g.owner[x]] {
      assert x in f.lists[f.owner[x]];
    }
    forall q, k | q in g.lists && 0 <= k < |g.lists[q]|
      ensures g.lists[q][k] in g.owner && g.owner[g.lists[q][k]] == q {
      assert q == p ==> g.lists[q][k] == f.lists[p][k + 1] != f.lists[p][0];
    }
  }

  lemma RestIsShifted(ids: seq<SlotId>)
    requires ids != []
    ensures forall k | 0 <= k < |ids[1..]| :: ids[1..][k] == ids[k + 1]
    ensures forall x | x in ids && x != ids[0] :: x in ids[1..]
  {
    forall x | x in ids && x != ids[0] ensures x in ids[1..] {
      var k :| 0 <= k < |ids| && ids[k] == x;
      assert ids[1..][k - 1] == x;
    }
  }

  lemma DetachedIsChained(f: Forest, nil: SlotId, p: Place)
    requires Chained(f, nil) && p in f.lists && f.lists[p] != []
    ensures Chained(Detached(f, p), nil)
  {
    var rest := f.lists[p][1..];
    forall k | 0 <= k < |rest| ensures rest[k] in f.h && f.h[rest[k]].next == Link(rest, k + 1, nil) {
      assert rest[k] == f.lists[p][k + 1];
    }
  }

  lemma DetachedIsValid(f: Forest, nil: SlotId, p: Place)
    requires Valid(f, nil) && p in f.lists && f.lists[p] != [] && p in f.open
    ensures Valid(Detached(f, p), nil)
  {
    DetachedIsOwned(f, p);
    DetachedIsChained(f, nil, p);
    DetachedIsDeep(f, p);
    hide Owned, Chained, Deep;
  }

  lemma DetachedIsDeep(f: Forest, p: Place)
    requires Deep(f) && p in f.lists && f.lists[p] != []
    ensures Deep(Detached(f, p))
  {
  }

  // A slot that is out and no collection is freed.

  function Dropped(f: Forest, id: SlotId): Forest {
    f.(h := f.h - {id}, out := f.out - {id})
  }

  lemma DroppedIsValid(f: Forest, nil: SlotId, id: SlotId)
    requires Valid(f, nil) && id in f.out && In(id) !in f.lists
    ensures Valid(Dropped(f, id), nil)
  {
    var g := Dropped(f, id);
    forall p: Place ensures p in g.lists <==> HasPlace(g, p) && DataAt(g, p).IsCollection() {
    }
  }

  // Opening a list for clearing, and closing it when it is empty.

  lemma OpenedIsValid(f: Forest, nil: SlotId, p: Place)
    requires Valid(f, nil)
    ensures Valid(f.(open := f.open + {p}), nil)
  {
  }

  lemma EmptiedIsValid(f: Forest, nil: SlotId, p: Place, d: VariantData)
    requires Valid(f, nil) && p in f.lists && f.lists[p] == []
    requires d.IsCollection() && d.head == nil && d.tail == nil
    ensures Valid(WithData(f, p, d).(open := f.open - {p}), nil)
  {
  }

  // A fresh slot.

  function Fresh(f: Forest, id: SlotId, slot: VariantSlot): Forest {
    f.(h := f.h[id := slot], out := f.out + {id}, depth := f.depth[id := 0], limit := f.limit + 1)
  }

  lemma FreshIsValid(f: Forest, nil: SlotId, id: SlotId, slot: VariantSlot)
    requires Valid(f, nil) && id !in f.h && id != nil && !slot.data.IsCollection()
    ensures Valid(Fresh(f, id, slot), nil)
  {
    FreshIsPlaced(f, id, slot);
    FreshIsOwned(f, id, slot);
    FreshIsDeep(f, id, slot);
    hide Owned, Placed, Deep;
  }

  lemma FreshIsPlaced(f: Forest, id: SlotId, slot: VariantSlot)
    requires Placed(f) && id !in f.h && !slot.data.IsCollection()
    ensures Placed(Fresh(f, id, slot))
  {
    var g := Fresh(f, id, slot);
    forall p: Place ensures p in g.lists <==> HasPlace(g, p) && DataAt(g, p).IsCollection() {
      assert p == In(id) ==> p !in f.lists;
    }
  }

  lemma FreshIsOwned(f: Forest, id: SlotId, slot: VariantSlot)
    requires Owned(f) && id !in f.h
    ensures Owned(Fresh(f, id, slot))
  {
  }

  lemma FreshIsDeep(f: Forest, id: SlotId, slot: VariantSlot)
    requires Deep(f) && Placed(f) && Owned(f) && id !in f.h
    ensures Deep(Fresh(f, id, slot))
  {
    forall x | x in f.owner ensures f.owner[x] != In(id) {
      assert f.owner[x] in f.lists && HasPlace(f, f.owner[x]);
    }
  }

  // Links between slots.

  function WithNext(f: Forest, id: SlotId, next: SlotId): (r: Forest)
    requires id in f.h
    ensures forall q :: HasPlace(r, q) == HasPlace(f, q)
    ensures forall q | HasPlace(f, q) :: DataAt(r, q) == DataAt(f, q)
    ensures r.h.Keys == f.h.Keys && forall x <- f.h :: r.h[x].next == if x == id then next else f.h[x].next
  {
    f.(h := f.h[id := f.h[id].(next := next)])
  }

  /** The same value with other ends. */
  function WithEnds(d: VariantData, head: SlotId, tail: SlotId): (r: VariantData)
    requires d.IsCollection()
    ensures r.IsCollection() && r.head == head && r.tail == tail && r.Array? == d.Array?
  {
    if d.Array? then Array(head, tail) else Object(head, tail)
  }

  ghost predicate ChainOf(h: map<SlotId, VariantSlot>, ids: seq<SlotId>, nil: SlotId) {
    forall k | 0 <= k < |ids| :: ids[k] in h && h[ids[k]].next == Link(ids, k + 1, nil)
  }

  /** The slots linked as these lists say, and nothing else changed in them. */
  lemma Relinked(f: Forest, g: Forest, nil: SlotId, p: Place)
    requires Chained(f, nil) && Owned(f) && p in f.lists && g.h.Keys == f.h.Keys
    requires g.lists.Keys == f.lists.Keys && forall q <- f.lists :: q != p ==> g.lists[q] == f.lists[q]
    requires forall x <- f.h :: g.h[x].next == f.h[x].next || (x in f.owner && f.owner[x] == p)
    requires ChainOf(g.h, g.lists[p], nil)
    ensures Chained(g, nil)
  {
    forall q, k | q in g.lists && 0 <= k < |g.lists[q]|
      ensures g.lists[q][k] in g.h && g.h[g.lists[q][k]].next == Link(g.lists[q], k + 1, nil)
    {
      assert q != p ==> f.owner[f.lists[q][k]] == q;
    }
  }

  /** One collection has other ends and another list, and they agree. */
  lemma OneListChanged(f: Forest, g: Forest, nil: SlotId, p: Place)
    requires Placed(f) && Ended(f, nil) && p in f.lists && g.open == f.open
    requires g.lists.Keys == f.lists.Keys && forall q <- f.lists :: q != p ==> g.lists[q] == f.lists[q]
    requires forall q :: HasPlace(g, q) == HasPlace(f, q)
    requires forall q | HasPlace(f, q) && q != p :: DataAt(g, q) == DataAt(f, q)
    requires HasPlace(f, p) && EndsAt(DataAt(g, p), g.lists[p], nil)
    ensures Placed(g) && Ended(g, nil)
  {
  }

  // A slot that is out is put at the end of a list.

  function DepthIn(f: Forest, p: Place): nat
    requires p.In? ==> p.id in f.depth
  {
    if p == Root then 0 else f.depth[p.id] + 1
  }

  ghost predicate CanAppend(f: Forest, nil: SlotId, p: Place, id: SlotId) {
    && Valid(f, nil) && p in f.lists && p !in f.open && id in f.out && In(id) !in f.lists && f.h[id].next == nil
  }

  lemma AppendIsDefined(f: Forest, nil: SlotId, p: Place, id: SlotId)
    requires CanAppend(f, nil, p, id)
    ensures HasPlace(f, p) && DataAt(f, p).IsCollection() && (p.In? ==> p.id in f.depth)
    ensures forall x <- f.lists[p] :: x in f.h && x in f.owner && f.owner[x] == p && x != id
    ensures EndsAt(DataAt(f, p), f.lists[p], nil)
  {
    forall x | x in f.lists[p] ensures x in f.h && x in f.owner && f.owner[x] == p && x != id {
      var k :| 0 <= k < |f.lists[p]| && f.lists[p][k] == x;
      assert f.lists[p][k] in f.owner;
    }
  }

  ghost function Appended(f: Forest, nil: SlotId, p: Place, id: SlotId): Forest
    requires CanAppend(f, nil, p, id)
  {
    AppendIsDefined(f, nil, p, id);
    var ids := f.lists[p];
    var d := DataAt(f, p);
    var g := if ids == [] then f else WithNext(f, ids[|ids| - 1], id);
    WithData(g, p, WithEnds(d, if ids == [] then id else d.head, id)).(
      lists := f.lists[p := ids + [id]], owner := f.owner[id := p], out := f.out - {id},
      depth := f.depth[id := DepthIn(f, p)], limit := f.limit + DepthIn(f, p) + 1)
  }

  lemma AppendedFields(f: Forest, nil: SlotId, p: Place, id: SlotId)
    requires CanAppend(f, nil, p, id)
    ensures var g := Appended(f, nil, p, id);
            && g.lists == f.lists[p := f.lists[p] + [id]] && g.owner == f.owner[id := p] && g.out == f.out - {id}
            && g.open == f.open && g.h.Keys == f.h.Keys
            && (p.In? ==> p.id in f.depth) && g.depth == f.depth[id := DepthIn(f, p)]
            && g.limit == f.limit + DepthIn(f, p) + 1
  {
    AppendIsDefined(f, nil, p, id);
  }

  lemma AppendedSlots(f: Forest, nil: SlotId, p: Place, id: SlotId)
    requires CanAppend(f, nil, p, id)
    ensures var g := Appended(f, nil, p, id);
            && g.h.Keys == f.h.Keys
            && forall x <- f.h ::
                 g.h[x].next == if f.lists[p] != [] && x == f.lists[p][|f.lists[p]| - 1] then id else f.h[x].next
  {
    AppendIsDefined(f, nil, p, id);
  }

  lemma AppendedData(f: Forest, nil: SlotId, p: Place, id: SlotId)
    requires CanAppend(f, nil, p, id)
    ensures var g := Appended(f, nil, p, id);
            && (forall q :: HasPlace(g, q) == HasPlace(f, q)) && HasPlace(f, p) && DataAt(f, p).IsCollection()
            && (forall q | HasPlace(f, q) && q != p :: DataAt(g, q) == DataAt(f, q))
            && DataAt(g, p).Array? == DataAt(f, p).Array? && EndsAt(DataAt(g, p), f.lists[p] + [id], nil)
  {
    AppendIsDefined(f, nil, p, id);
    assert Link(f.lists[p] + [id], 0, nil) == if f.lists[p] == [] then id else DataAt(f, p).head;
  }

  lemma AppendedIsChained(f: Forest, nil: SlotId, p: Place, id: SlotId)
    requires CanAppend(f, nil, p, id)
    ensures Chained(Appended(f, nil, p, id), nil)
  {
    AppendIsDefined(f, nil, p, id);
    AppendedFields(f, nil, p, id);
    AppendedSlots(f, nil, p, id);
    var g := Appended(f, nil, p, id);
    hide Appended, Placed, Ended, Deep;
    ChainGrows(f, g, nil, p, id);
    Relinked(f, g, nil, p);
  }

  lemma ChainGrows(f: Forest, g: Forest, nil: SlotId, p: Place, id: SlotId)
    requires Chained(f, nil) && p in f.lists && id in f.h && f.h[id].next == nil && g.h.Keys == f.h.Keys
    requires id !in f.lists[p] && NoRepeats(f.lists[p])
    requires forall x <- f.h ::
      g.h[x].next == if f.lists[p] != [] && x == f.lists[p][|f.lists[p]| - 1] then id else f.h[x].next
    ensures ChainOf(g.h, f.lists[p] + [id], nil)
  {
    var ids := f.lists[p];
    var more := ids + [id];
    forall k | 0 <= k < |more| ensures more[k] in g.h && g.h[more[k]].next == Link(more, k + 1, nil) {
      if k < |ids| {
        assert more[k] == ids[k];
      }
    }
  }

  lemma InTheList(f: Forest, p: Place, x: SlotId)
    requires Owned(f) && p in f.lists
    ensures x in f.lists[p] <==> x in f.owner && f.owner[x] == p
  {
    if x in f.lists[p] {
      var k :| 0 <= k < |f.lists[p]| && f.lists[p][k] == x;
      assert f.lists[p][k] in f.owner;
    }
  }

  lemma OwnedGrows(f: Forest, g: Forest, p: Place, id: SlotId)
    requires Owned(f) && p in f.lists && id in f.out
    requires g.lists == f.lists[p := f.lists[p] + [id]] && g.owner == f.owner[id := p] && g.out == f.out - {id}
    requires g.h.Keys == f.h.Keys
    ensures Owned(g)
  {
    var ids := f.lists[p];
    var more := ids + [id];
    InTheList(f, p, id);
    AssignedGrows(f, g, p, id);
    forall x | x in g.owner ensures g.owner[x] in g.lists && x in g.lists[g.owner[x]] {
      if x == id {
        assert more[|ids|] == id;
      } else if f.owner[x] == p {
        assert x in ids && forall k | 0 <= k < |ids| :: more[k] == ids[k];
      }
    }
  }

  lemma AssignedGrows(f: Forest, g: Forest, p: Place, id: SlotId)
    requires Assigned(f) && p in f.lists && id !in f.owner
    requires g.lists == f.lists[p := f.lists[p] + [id]] && g.owner == f.owner[id := p]
    ensures Assigned(g)
  {
    forall q, k | q in g.lists && 0 <= k < |g.lists[q]|
      ensures g.lists[q][k] in g.owner && g.owner[g.lists[q][k]] == q {
      if q != p || k < |f.lists[p]| {
        assert g.lists[q][k] == f.lists[q][k];
      }
    }
  }

  lemma AppendedIsOwned(f: Forest, nil: SlotId, p: Place, id: SlotId)
    requires CanAppend(f, nil, p, id)
    ensures Owned(Appended(f, nil, p, id))
  {
    AppendedFields(f, nil, p, id);
    hide Appended, Placed, Chained, Ended, Deep, Owned;
    OwnedGrows(f, Appended(f, nil, p, id), p, id);
  }

  lemma DeepGrows(f: Forest, g: Forest, p: Place, id: SlotId)
    requires Deep(f) && id in f.h && (p.In? ==> p.id in f.h && p.id != id)
    requires forall x <- f.owner :: f.owner[x] != In(id)
    requires g.owner == f.owner[id := p] && g.h.Keys == f.h.Keys
    requires p.In? ==> p.id in f.depth
    requires g.depth == f.depth[id := DepthIn(f, p)] && g.limit == f.limit + DepthIn(f, p) + 1
    ensures Deep(g)
  {
  }

  lemma NobodyIn(f: Forest, id: SlotId)
    requires Owned(f) && In(id) !in f.lists
    ensures forall x <- f.owner :: f.owner[x] != In(id)
  {
  }

  lemma AppendedIsDeep(f: Forest, nil: SlotId, p: Place, id: SlotId)
    requires CanAppend(f, nil, p, id)
    ensures Deep(Appended(f, nil, p, id))
  {
    AppendIsDefined(f, nil, p, id);
    AppendedFields(f, nil, p, id);
    NobodyIn(f, id);
    hide Appended, Placed, Chained, Ended, Deep;
    DeepGrows(f, Appended(f, nil, p, id), p, id);
  }

  lemma AppendedIsPlaced(f: Forest, nil: SlotId, p: Place, id: SlotId)
    requires CanAppend(f, nil, p, id)
    ensures Placed(Appended(f, nil, p, id)) && Ended(Appended(f, nil, p, id), nil)
  {
    AppendedFields(f, nil, p, id);
    AppendedData(f, nil, p, id);
    hide Appended, Chained, Owned, Deep, EndsAt, Placed, Ended;
    OneListChanged(f, Appended(f, nil, p, id), nil, p);
  }

  lemma AppendedIsValid(f: Forest, nil: SlotId, p: Place, id: SlotId)
    requires CanAppend(f, nil, p, id)
    ensures Valid(Appended(f, nil, p, id), nil)
  {
    AppendIsDefined(f, nil, p, id);
    AppendedIsChained(f, nil, p, id);
    AppendedIsOwned(f, nil, p, id);
    AppendedIsDeep(f, nil, p, id);
    AppendedIsPlaced(f, nil, p, id);
    hide Placed, Chained, Owned, Deep, Ended;
  }

  // A slot is taken out of the middle of a list.

  ghost predicate CanUnlink(f: Forest, nil: SlotId, p: Place, k: nat) {
    Valid(f, nil) && p in f.lists && p !in f.open && k < |f.lists[p]|
  }

  function Cut(ids: seq<SlotId>, k: nat): seq<SlotId>
    requires k < |ids|
  {
    ids[..k] + ids[k + 1..]
  }

  lemma UnlinkIsDefined(f: Forest, nil: SlotId, p: Place, k: nat)
    requires CanUnlink(f, nil, p, k)
    ensures HasPlace(f, p) && DataAt(f, p).IsCollection() && EndsAt(DataAt(f, p), f.lists[p], nil)
    ensures forall j | 0 <= j < |f.lists[p]| ::
      var x := f.lists[p][j];
      x in f.h && x in f.owner && f.owner[x] == p && x != nil && f.h[x].next == Link(f.lists[p], j + 1, nil)
    ensures f.h[f.lists[p][k]].next == nil <==> k + 1 == |f.lists[p]|
  {
    assert f.lists[p][k] in f.h;
    if k + 1 < |f.lists[p]| { assert f.lists[p][k + 1] in f.h; }
  }

  ghost function Unlinked(f: Forest, nil: SlotId, p: Place, k: nat): Forest
    requires CanUnlink(f, nil, p, k)
  {
    UnlinkIsDefined(f, nil, p, k);
    var ids := f.lists[p];
    var next := f.h[ids[k]].next;
    var d := DataAt(f, p);
    var prev := if k == 0 then nil else ids[k - 1];
    var g := if k == 0 then f else WithNext(f, prev, next);
    WithData(g, p, WithEnds(d, if k == 0 then next else d.head, if next == nil then prev else d.tail)).(
      lists := f.lists[p := Cut(ids, k)], owner := f.owner - {ids[k]}, out := f.out + {ids[k]})
  }

  lemma UnlinkedFields(f: Forest, nil: SlotId, p: Place, k: nat)
    requires CanUnlink(f, nil, p, k)
    ensures var g := Unlinked(f, nil, p, k);
            var id := f.lists[p][k];
            && g.lists == f.lists[p := Cut(f.lists[p], k)] && g.owner == f.owner - {id} && g.out == f.out + {id}
            && g.open == f.open && g.h.Keys == f.h.Keys && g.depth == f.depth && g.limit == f.limit
  {
    UnlinkIsDefined(f, nil, p, k);
  }

  lemma UnlinkedSlots(f: Forest, nil: SlotId, p: Place, k: nat)
    requires CanUnlink(f, nil, p, k)
    ensures var g := Unlinked(f, nil, p, k);
            && g.h.Keys == f.h.Keys
            && forall x <- f.h ::
                 g.h[x].next == if k > 0 && x == f.lists[p][k - 1] then Link(f.lists[p], k + 1, nil) else f.h[x].next
  {
    UnlinkIsDefined(f, nil, p, k);
  }

  /** The ends of a collection when slot number k is taken out. */
  function CutEnds(d: VariantData, ids: seq<SlotId>, k: nat, nil: SlotId): VariantData
    requires d.IsCollection() && k < |ids|
  {
    var next := Link(ids, k + 1, nil);
    WithEnds(d, if k == 0 then next else d.head, if next == nil then (if k == 0 then nil else ids[k - 1]) else d.tail)
  }

  lemma EndsAreCut(d: VariantData, ids: seq<SlotId>, k: nat, nil: SlotId)
    requires EndsAt(d, ids, nil) && k < |ids| && nil !in ids
    ensures EndsAt(CutEnds(d, ids, k, nil), Cut(ids, k), nil)
  {
    var less := Cut(ids, k);
    if k + 1 < |ids| {
      assert ids[k + 1] in ids;
      assert less[|less| - 1] == ids[|ids| - 1];
    }
    if k > 0 {
      assert less[0] == ids[0];
    }
  }

  lemma UnlinkedData(f: Forest, nil: SlotId, p: Place, k: nat)
    requires CanUnlink(f, nil, p, k)
    ensures var g := Unlinked(f, nil, p, k);
            && (forall q :: HasPlace(g, q) == HasPlace(f, q)) && HasPlace(f, p) && DataAt(f, p).IsCollection()
            && (forall q | HasPlace(f, q) && q != p :: DataAt(g, q) == DataAt(f, q))
            && DataAt(g, p) == CutEnds(DataAt(f, p), f.lists[p], k, nil)
  {
    UnlinkIsDefined(f, nil, p, k);
  }

  lemma UnlinkedEnds(f: Forest, nil: SlotId, p: Place, k: nat)
    requires CanUnlink(f, nil, p, k)
    ensures var g := Unlinked(f, nil, p, k);
            HasPlace(g, p) && DataAt(g, p).Array? == DataAt(f, p).Array?
                && EndsAt(DataAt(g, p), Cut(f.lists[p], k), nil)
  {
    UnlinkIsDefined(f, nil, p, k);
    UnlinkedData(f, nil, p, k);
    EndsAreCut(DataAt(f, p), f.lists[p], k, nil);
    hide Unlinked;
  }

  lemma CutAt(ids: seq<SlotId>, k: nat)
    requires k < |ids|
    ensures |Cut(ids, k)| == |ids| - 1
    ensures forall j | 0 <= j < |ids| - 1 :: Cut(ids, k)[j] == ids[if j < k then j else j + 1]
  {
  }

  lemma ChainIsCut(h: map<SlotId, VariantSlot>, g: map<SlotId, VariantSlot>, nil: SlotId, ids: seq<SlotId>, k: nat)
    requires ChainOf(h, ids, nil) && k < |ids| && g.Keys == h.Keys
    requires NoRepeats(ids)
    requires forall x <- h :: g[x].next == if k > 0 && x == ids[k - 1] then Link(ids, k + 1, nil) else h[x].next
    ensures ChainOf(g, Cut(ids, k), nil)
  {
    var less := Cut(ids, k);
    CutAt(ids, k);
    hide Cut;
    forall j | 0 <= j < |less| ensures less[j] in g && g[less[j]].next == Link(less, j + 1, nil) {
      LinkIsCut(ids, k, j, nil);
      var i := if j < k then j else j + 1;
      assert less[j] == ids[i] && ids[i] in h && h[ids[i]].next == Link(ids, i + 1, nil);
      if k > 0 && i < k - 1 {
        assert ids[i] != ids[k - 1];
      } else if k > 0 && i > k - 1 {
        assert ids[k - 1] != ids[i];
      }
    }
  }

  lemma LinkIsCut(ids: seq<SlotId>, k: nat, j: nat, nil: SlotId)
    requires k < |ids| && j < |ids| - 1
    ensures Link(Cut(ids, k), j + 1, nil) == Link(ids, if j + 1 < k then j + 1 else j + 2, nil)
  {
  }

  lemma OwnedIsCut(f: Forest, g: Forest, p: Place, k: nat)
    requires Owned(f) && p in f.lists && k < |f.lists[p]| && f.lists[p][k] in f.h
    requires g.lists == f.lists[p := Cut(f.lists[p], k)] && g.owner == f.owner - {f.lists[p][k]}
    requires g.out == f.out + {f.lists[p][k]} && g.h.Keys == f.h.Keys
    ensures Owned(g)
  {
    var ids := f.lists[p];
    CutAt(ids, k);
    AssignedIsCut(f, g, p, k);
    forall x | x in g.owner ensures g.owner[x] in g.lists && x in g.lists[g.owner[x]] {
      if f.owner[x] == p {
        var i :| 0 <= i < |ids| && ids[i] == x;
        assert Cut(ids, k)[if i < k then i else i - 1] == x;
      }
    }
  }

  lemma AssignedIsCut(f: Forest, g: Forest, p: Place, k: nat)
    requires Assigned(f) && p in f.lists && k < |f.lists[p]| && NoRepeats(f.lists[p])
    requires g.lists == f.lists[p := Cut(f.lists[p], k)] && g.owner == f.owner - {f.lists[p][k]}
    ensures Assigned(g)
  {
    var ids, id := f.lists[p], f.lists[p][k];
    CutAt(ids, k);
    hide Cut;
    assert id in f.owner && f.owner[id] == p;
    forall q, j | q in g.lists && 0 <= j < |g.lists[q]|
      ensures g.lists[q][j] in g.owner && g.owner[g.lists[q][j]] == q {
      if q == p {
        var i := if j < k then j else j + 1;
        assert g.lists[q][j] == ids[i] && ids[i] in f.owner && f.owner[ids[i]] == p && ids[i] != id;
      } else {
        assert f.lists[q][j] in f.owner && f.owner[f.lists[q][j]] == q;
      }
    }
  }

  lemma DeepIsCut(f: Forest, g: Forest)
    requires Deep(f) && g.owner.Keys <= f.owner.Keys && (forall x <- g.owner :: g.owner[x] == f.owner[x])
    requires g.h.Keys == f.h.Keys && g.depth == f.depth && g.limit == f.limit
    ensures Deep(g)
  {
  }

  lemma UnlinkedIsOwned(f: Forest, nil: SlotId, p: Place, k: nat)
    requires CanUnlink(f, nil, p, k)
    ensures Owned(Unlinked(f, nil, p, k)) && Deep(Unlinked(f, nil, p, k))
  {
    UnlinkIsDefined(f, nil, p, k);
    UnlinkedFields(f, nil, p, k);
    hide Unlinked, Placed, Ended, Deep, Chained, Owned;
    OwnedIsCut(f, Unlinked(f, nil, p, k), p, k);
    DeepIsCut(f, Unlinked(f, nil, p, k));
  }

  lemma UnlinkedIsChained(f: Forest, nil: SlotId, p: Place, k: nat)
    requires CanUnlink(f, nil, p, k)
    ensures Chained(Unlinked(f, nil, p, k), nil)
  {
    hide Unlinked, Placed, Ended, Deep, Cut, Listed, Assigned, NoRepeats, Link;
    UnlinkIsDefined(f, nil, p, k);
    UnlinkedFields(f, nil, p, k);
    UnlinkedSlots(f, nil, p, k);
    var g := Unlinked(f, nil, p, k);
    assert ChainOf(f.h, f.lists[p], nil);
    hide Chained;
    ChainIsCut(f.h, g.h, nil, f.lists[p], k);
    assert g.lists[p] == Cut(f.lists[p], k);
    Relinked(f, g, nil, p);
  }

  lemma UnlinkedIsPlaced(f: Forest, nil: SlotId, p: Place, k: nat)
    requires CanUnlink(f, nil, p, k)
    ensures Placed(Unlinked(f, nil, p, k)) && Ended(Unlinked(f, nil, p, k), nil)
  {
    UnlinkedFields(f, nil, p, k);
    UnlinkedData(f, nil, p, k);
    UnlinkedEnds(f, nil, p, k);
    hide Unlinked, Chained, Owned, Deep, EndsAt, Placed, Ended, CutEnds;
    OneListChanged(f, Unlinked(f, nil, p, k), nil, p);
  }

  lemma UnlinkedIsValid(f: Forest, nil: SlotId, p: Place, k: nat)
    requires CanUnlink(f, nil, p, k)
    ensures Valid(Unlinked(f, nil, p, k), nil)
  {
    UnlinkedIsOwned(f, nil, p, k);
    UnlinkedIsChained(f, nil, p, k);
    UnlinkedIsPlaced(f, nil, p, k);
    hide Unlinked, Placed, Chained, Owned, Deep, Ended;
  }
}

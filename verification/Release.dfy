/** What clearing a collection leaves: the slots under it are gone, and nothing
    else has changed. */
module Releases {
  import opened Slots
  import opened VariantPools
  import opened Forests

  /** S and all that lies under it: whose list a slot is in decides. */
  ghost predicate Closure(f: Forest, S: set<SlotId>, F: set<SlotId>) {
    && S <= F <= f.h.Keys
    && forall x <- f.h :: x in F <==> x in S || (x in f.owner && f.owner[x].In? && f.owner[x].id in F)
  }

  function Without(lists: map<Place, seq<SlotId>>, F: set<SlotId>): map<Place, seq<SlotId>> {
    map p <- lists | !(p.In? && p.id in F) :: lists[p]
  }

  function Pruned(f: Forest, F: set<SlotId>): Forest {
    f.(h := f.h - F, lists := Without(f.lists, F), owner := f.owner - F, out := f.out - F)
  }

  /** A collection with nothing in it any more. */
  function Cleared(f: Forest, nil: SlotId, p: Place, F: set<SlotId>): Forest
    requires p in f.lists && (p.In? ==> p.id in f.h && p.id !in F) && DataAt(f, p).IsCollection()
  {
    var g := Pruned(f, F);
    WithData(g, p, WithEnds(DataAt(f, p), nil, nil)).(lists := g.lists[p := []])
  }

  function SetOf(ids: seq<SlotId>): set<SlotId> {
    set x <- ids
  }

  lemma {:induction false} UnderIsDeeper(f: Forest, S: set<SlotId>, F: set<SlotId>, bound: nat, x: SlotId)
    requires Deep(f) && Closure(f, S, F) && x in F
    requires forall s <- S :: f.depth[s] > bound
    ensures f.depth[x] > bound
    decreases f.depth[x]
  {
    if x !in S {
      UnderIsDeeper(f, S, F, bound, f.owner[x].id);
    }
  }

  // Releasing one slot.

  lemma LeafReleased(f: Forest, id: SlotId)
    requires Owned(f) && id in f.out && In(id) !in f.lists
    ensures Closure(f, {id}, {id}) && Dropped(f, id) == Pruned(f, {id})
  {
    NobodyIn(f, id);
    assert f.owner - {id} == f.owner;
    assert Without(f.lists, {id}) == f.lists;
  }

  lemma NodeReleased(f: Forest, nil: SlotId, id: SlotId, F: set<SlotId>, d: VariantData)
    requires Owned(f) && Placed(f) && id in f.out && In(id) in f.lists && !d.IsCollection()
    requires Closure(f, SetOf(f.lists[In(id)]), F) && id !in F
    ensures Closure(f, {id}, F + {id})
    ensures Dropped(Replaced(Cleared(f, nil, In(id), F), In(id), d), id) == Pruned(f, F + {id})
  {
    NodeClosure(f, id, F);
    hide Closure, Owned, Placed;
    NodeSlots(f, nil, id, F, d);
    NodeLists(f, nil, id, F, d);
    var g := Dropped(Replaced(Cleared(f, nil, In(id), F), In(id), d), id);
    var r := Pruned(f, F + {id});
    assert g.owner == r.owner;
    assert g.out == r.out;
  }

  lemma NodeSlots(f: Forest, nil: SlotId, id: SlotId, F: set<SlotId>, d: VariantData)
    requires In(id) in f.lists && id in f.h && id !in F && DataAt(f, In(id)).IsCollection()
    ensures var g := Replaced(Cleared(f, nil, In(id), F), In(id), d); Dropped(g, id).h == Pruned(f, F + {id}).h
  {
  }

  lemma NodeLists(f: Forest, nil: SlotId, id: SlotId, F: set<SlotId>, d: VariantData)
    requires In(id) in f.lists && id in f.h && id !in F && DataAt(f, In(id)).IsCollection() && !d.IsCollection()
    ensures var g := Replaced(Cleared(f, nil, In(id), F), In(id), d); Dropped(g, id).lists == Pruned(f, F + {id}).lists
  {
    hide WithData;
  }

  lemma NodeClosure(f: Forest, id: SlotId, F: set<SlotId>)
    requires Owned(f) && id in f.out && In(id) in f.lists && Closure(f, SetOf(f.lists[In(id)]), F)
    ensures Closure(f, {id}, F + {id})
  {
    forall x | x in f.h
      ensures x in F + {id} <==> x == id || (x in f.owner && f.owner[x].In? && f.owner[x].id in F + {id})
    {
      InTheList(f, In(id), x);
    }
  }

  // Clearing a list, slot by slot.

  /** The forest while the list at p is being cleared: F is gone, the slots from
      number k on are left. */
  function Clearing(f: Forest, p: Place, ids: seq<SlotId>, k: nat, F: set<SlotId>): Forest
    requires k <= |ids|
  {
    var g := Pruned(f, F);
    g.(lists := g.lists[p := ids[k..]], open := g.open + {p})
  }

  lemma ClearingStarts(f: Forest, p: Place)
    requires p in f.lists
    ensures Closure(f, {}, {}) && f.(open := f.open + {p}) == Clearing(f, p, f.lists[p], 0, {})
    ensures SetOf(f.lists[p][..0]) == {}
  {
    assert f.h - {} == f.h && f.owner - {} == f.owner && f.out - {} == f.out;
    assert Without(f.lists, {}) == f.lists;
    assert f.lists[p][0..] == f.lists[p];
    assert f.lists[p := f.lists[p]] == f.lists;
  }

  /** After the next slot and all under it. */
  lemma ClearingGoesOn(f: Forest, p: Place, k: nat, F: set<SlotId>, G: set<SlotId>)
    requires p in f.lists && k < |f.lists[p]| && (p.In? ==> p.id !in F && p.id !in G)
    requires var c := Clearing(f, p, f.lists[p], k, F);
             c.lists[p] != [] && f.lists[p][k] in G
    ensures var c := Clearing(f, p, f.lists[p], k, F);
            Pruned(Detached(c, p), G) == Clearing(f, p, f.lists[p], k + 1, F + G)
  {
    var ids, id := f.lists[p], f.lists[p][k];
    var d := Detached(Clearing(f, p, ids, k, F), p);
    assert ids[k..][0] == id && ids[k..][1..] == ids[k + 1..];
    var r := Clearing(f, p, ids, k + 1, F + G);
    var g := Pruned(d, G);
    assert g.h == r.h;
    assert g.owner == r.owner;
    assert g.out == r.out;
    assert g.lists == r.lists;
  }

  lemma ClosureGoesOn(f: Forest, p: Place, k: nat, F: set<SlotId>, G: set<SlotId>)
    requires Owned(f) && p in f.lists && k < |f.lists[p]|
    requires Closure(f, SetOf(f.lists[p][..k]), F) && f.lists[p][k] !in F
    requires var c := Clearing(f, p, f.lists[p], k, F);
             c.lists[p] != [] && Closure(Detached(c, p), {f.lists[p][k]}, G)
    ensures Closure(f, SetOf(f.lists[p][..k + 1]), F + G)
  {
    var ids, id := f.lists[p], f.lists[p][k];
    var d := Detached(Clearing(f, p, ids, k, F), p);
    assert ids[k..][0] == id;
    assert SetOf(ids[..k + 1]) == SetOf(ids[..k]) + {id};
    forall x | x in f.h
      ensures x in F + G <==> x in SetOf(ids[..k + 1]) || (x in f.owner && f.owner[x].In? && f.owner[x].id in F + G)
    {
      assert x !in F && x != id && x in f.owner ==> x in d.owner && d.owner[x] == f.owner[x];
      assert x in G ==> x in d.h;
    }
  }

  /** At the end only the value at p is still to be written. */
  lemma ClearingEnds(f: Forest, nil: SlotId, p: Place, F: set<SlotId>)
    requires p in f.lists && p !in f.open && (p.In? ==> p.id in f.h && p.id !in F) && DataAt(f, p).IsCollection()
    ensures var c := Clearing(f, p, f.lists[p], |f.lists[p]|, F);
            HasPlace(c, p) && DataAt(c, p) == DataAt(f, p)
            && WithData(c, p, WithEnds(DataAt(f, p), nil, nil)).(open := c.open - {p}) == Cleared(f, nil, p, F)
    ensures SetOf(f.lists[p][..|f.lists[p]|]) == SetOf(f.lists[p])
  {
    var ids := f.lists[p];
    assert ids[|ids|..] == [] && ids[..|ids|] == ids;
    assert f.open + {p} - {p} == f.open;
  }

  /** All slots lie under the root. */
  lemma {:induction false} UnderTheRoot(f: Forest, F: set<SlotId>, x: SlotId)
    requires Placed(f) && Owned(f) && Deep(f) && f.out == {} && x in f.h
    requires Root in f.lists && Closure(f, SetOf(f.lists[Root]), F)
    ensures x in F
    decreases f.depth[x]
  {
    InTheList(f, Root, x);
    if f.owner[x].In? {
      assert f.owner[x] in f.lists;
      UnderTheRoot(f, F, f.owner[x].id);
    }
  }

  lemma NoRootNoSlots(f: Forest)
    requires Placed(f) && Owned(f) && Deep(f) && f.out == {} && Root !in f.lists
    ensures f.h == map[]
  {
    if f.h.Keys != {} {
      var x :| x in f.h;
      NobodyUnderNothing(f, x);
    }
  }

  lemma {:induction false} NobodyUnderNothing(f: Forest, x: SlotId)
    requires Placed(f) && Owned(f) && Deep(f) && f.out == {} && Root !in f.lists && x in f.h
    ensures false
    decreases f.depth[x]
  {
    assert f.owner[x] in f.lists;
    NobodyUnderNothing(f, f.owner[x].id);
  }
}

/** How many keys and values own a string. */
module OwnerCounts {
  import opened Document
  import opened Bytes
  import opened Options
  import opened Slots
  import opened StringPools
  import opened Forests

  type Heap = map<SlotId, VariantSlot>

  // references that were counted and never stored
  type Strays = multiset<Address>

  /** The key of a slot that is being released does not count any more. */
  function KeyOwners(h: Heap, dropped: set<SlotId>, a: Address): set<SlotId> {
    set id <- h | id !in dropped && h[id].key == OwnedKey(a)
  }

  function ValueOwners(h: Heap, a: Address): set<SlotId> {
    set id <- h | h[id].data == OwnedString(a)
  }

  function OwnersOf(h: Heap, root: VariantData, dropped: set<SlotId>, a: Address): nat {
    |KeyOwners(h, dropped, a)| + |ValueOwners(h, a)| + if root == OwnedString(a) then 1 else 0
  }

  /** Each string has as many references as owners and strays. */
  ghost predicate OwnersCount(strings: seq<StringNode>, h: Heap, root: VariantData, dropped: set<SlotId>,
                              strays: Strays) {
    forall a: Address :: Refs(strings, a) == OwnersOf(h, root, dropped, a) + strays[a]
  }

  /** What is owned still reads as before. */
  ghost predicate TextsStay(before: seq<StringNode>, after: seq<StringNode>, h: Heap, root: VariantData) {
    forall a: Address | OwnersOf(h, root, {}, a) > 0 :: TextOf(after, a) == TextOf(before, a)
  }

  lemma OwnedTextsStay(before: seq<StringNode>, after: seq<StringNode>, h: Heap, root: VariantData, strays: Strays)
    requires Reduced(before, after) && OwnersCount(after, h, root, {}, strays)
    ensures TextsStay(before, after, h, root)
  {
  }

  lemma TextsStayAfterAdding(before: seq<StringNode>, between: seq<StringNode>, after: seq<StringNode>, h: Heap,
                             root: VariantData,
                             strays: Strays, text: bytes, node: Option<Address>)
    requires Reduced(before, between) && OwnersCount(between, h, root, {}, strays) && Distinct(between)
    requires Find(between, text).Some? ==> node == Find(between, text)
    requires Find(between, text).None? && node.Some? ==> TextOf(between, node.value) == None
    requires node.Some? ==> TextOf(after, node.value) == Some(text)
    requires forall a: Address :: node != Some(a) ==> TextOf(after, a) == TextOf(between, a)
    ensures TextsStay(before, after, h, root)
  {
    forall a: Address | OwnersOf(h, root, {}, a) > 0 ensures TextOf(after, a) == TextOf(before, a) {
      FoundIsThere(between, text, a);
    }
  }

  function OneIf(b: bool): nat {
    if b then 1 else 0
  }

  lemma KeyDropped(h: Heap, root: VariantData, dropped: set<SlotId>, id: SlotId, a: Address)
    requires id in h && id !in dropped
    ensures OwnersOf(h, root, dropped, a) == OwnersOf(h, root, dropped + {id}, a) + OneIf(h[id].key == OwnedKey(a))
  {
    if h[id].key == OwnedKey(a) {
      assert KeyOwners(h, dropped, a) == KeyOwners(h, dropped + {id}, a) + {id};
    } else {
      assert KeyOwners(h, dropped, a) == KeyOwners(h, dropped + {id}, a);
    }
  }

  lemma SlotChanged(h: Heap, root: VariantData, dropped: set<SlotId>, id: SlotId, slot: VariantSlot, a: Address)
    requires id in h
    ensures OwnersOf(h[id := slot], root, dropped, a)
              + OneIf(h[id].data == OwnedString(a)) + OneIf(id !in dropped && h[id].key == OwnedKey(a))
            == OwnersOf(h, root, dropped, a)
              + OneIf(slot.data == OwnedString(a)) + OneIf(id !in dropped && slot.key == OwnedKey(a))
  {
    KeyChanged(h, dropped, id, slot, a);
    ValueChanged(h, id, slot, a);
    hide KeyOwners, ValueOwners;
  }

  lemma KeyChanged(h: Heap, dropped: set<SlotId>, id: SlotId, slot: VariantSlot, a: Address)
    requires id in h
    ensures |KeyOwners(h[id := slot], dropped, a)| + OneIf(id !in dropped && h[id].key == OwnedKey(a))
            == |KeyOwners(h, dropped, a)| + OneIf(id !in dropped && slot.key == OwnedKey(a))
  {
    var g := h[id := slot];
    assert KeyOwners(g, dropped, a) - {id} == KeyOwners(h, dropped, a) - {id};
    assert id in KeyOwners(g, dropped, a) <==> id !in dropped && slot.key == OwnedKey(a);
    assert id in KeyOwners(h, dropped, a) <==> id !in dropped && h[id].key == OwnedKey(a);
    hide KeyOwners;
    CountOne(KeyOwners(g, dropped, a), id);
    CountOne(KeyOwners(h, dropped, a), id);
  }

  lemma ValueChanged(h: Heap, id: SlotId, slot: VariantSlot, a: Address)
    requires id in h
    ensures |ValueOwners(h[id := slot], a)| + OneIf(h[id].data == OwnedString(a))
            == |ValueOwners(h, a)| + OneIf(slot.data == OwnedString(a))
  {
    var g := h[id := slot];
    assert ValueOwners(g, a) - {id} == ValueOwners(h, a) - {id};
    assert id in ValueOwners(g, a) <==> slot.data == OwnedString(a);
    assert id in ValueOwners(h, a) <==> h[id].data == OwnedString(a);
    hide ValueOwners;
    CountOne(ValueOwners(g, a), id);
    CountOne(ValueOwners(h, a), id);
  }

  lemma CountOne(s: set<SlotId>, id: SlotId)
    ensures |s| == |s - {id}| + OneIf(id in s)
  {
    if id in s { assert s == (s - {id}) + {id}; } else { assert s == s - {id}; }
  }

  lemma SlotFreed(h: Heap, root: VariantData, dropped: set<SlotId>, id: SlotId, a: Address)
    requires id in h && id in dropped && !h[id].data.OwnedString?
    ensures OwnersOf(h - {id}, root, dropped - {id}, a) == OwnersOf(h, root, dropped, a)
  {
    assert KeyOwners(h - {id}, dropped - {id}, a) == KeyOwners(h, dropped, a);
    assert ValueOwners(h - {id}, a) == ValueOwners(h, a);
  }

  lemma SlotAdded(h: Heap, root: VariantData, dropped: set<SlotId>, id: SlotId, slot: VariantSlot, a: Address)
    requires id !in h && !slot.data.OwnedString? && !slot.key.OwnedKey?
    ensures OwnersOf(h[id := slot], root, dropped, a) == OwnersOf(h, root, dropped, a)
  {
    assert KeyOwners(h[id := slot], dropped, a) == KeyOwners(h, dropped, a);
    assert ValueOwners(h[id := slot], a) == ValueOwners(h, a);
  }

  lemma DataChanged(f: Forest, dropped: set<SlotId>, p: Place, d: VariantData, a: Address)
    requires HasPlace(f, p)
    ensures var g := WithData(f, p, d);
            OwnersOf(g.h, g.root, dropped, a) + OneIf(DataAt(f, p) == OwnedString(a))
            == OwnersOf(f.h, f.root, dropped, a) + OneIf(d == OwnedString(a))
  {
    if p.In? {
      SlotChanged(f.h, f.root, dropped, p.id, f.h[p.id].(data := d), a);
    }
  }

  // What each change does to the counts.

  lemma CountsAfterForgetting(strings: seq<StringNode>, f: Forest, dropped: set<SlotId>, strays: Strays, p: Place,
                              d: VariantData)
    requires OwnersCount(strings, f.h, f.root, dropped, strays)
    requires HasPlace(f, p) && !DataAt(f, p).OwnedString? && !d.OwnedString?
    ensures var g := WithData(f, p, d); OwnersCount(strings, g.h, g.root, dropped, strays)
  {
    forall a: Address ensures var g := WithData(f, p, d); OwnersOf(g.h, g.root, dropped, a) == OwnersOf(f.h, f.root,
        dropped, a) {
      DataChanged(f, dropped, p, d, a);
    }
  }

  lemma CountsAfterGivingUp(strings: seq<StringNode>, after: seq<StringNode>, f: Forest, dropped: set<SlotId>,
                            strays: Strays,
                            p: Place, node: Address)
    requires OwnersCount(strings, f.h, f.root, dropped, strays)
    requires HasPlace(f, p) && DataAt(f, p) == OwnedString(node)
    requires forall a: Address :: Refs(after, a) == Refs(strings, a) - if node == a
                                  && Refs(strings, a) > 0 then 1 else 0
    ensures var g := WithData(f, p, Simple(Null)); OwnersCount(after, g.h, g.root, dropped, strays)
  {
    var g := WithData(f, p, Simple(Null));
    forall a: Address
      ensures Refs(after, a) == OwnersOf(g.h, g.root, dropped, a) + strays[a]
    {
      DataChanged(f, dropped, p, Simple(Null), a);
    }
  }

  ghost predicate KeyGivenUp(before: seq<StringNode>, after: seq<StringNode>, key: Key) {
    if key.OwnedKey? then
      forall a: Address :: Refs(after, a) == Refs(before, a) - if key.node == a && Refs(before, a) > 0 then 1 else 0
    else after == before
  }

  lemma CountsAfterKey(strings: seq<StringNode>, after: seq<StringNode>, h: Heap, root: VariantData,
                       dropped: set<SlotId>, strays: Strays,
                       id: SlotId)
    requires OwnersCount(strings, h, root, dropped, strays) && id in h && id !in dropped
    requires KeyGivenUp(strings, after, h[id].key)
    ensures OwnersCount(after, h, root, dropped + {id}, strays)
  {
    forall a: Address
      ensures Refs(after, a) == OwnersOf(h, root, dropped + {id}, a) + strays[a]
    {
      KeyDropped(h, root, dropped, id, a);
    }
  }

  lemma CountsAfterFreeing(strings: seq<StringNode>, h: Heap, root: VariantData, dropped: set<SlotId>, strays: Strays,
                           id: SlotId)
    requires OwnersCount(strings, h, root, dropped, strays) && id in h && id in dropped && !h[id].data.OwnedString?
    ensures OwnersCount(strings, h - {id}, root, dropped - {id}, strays)
  {
    forall a: Address ensures OwnersOf(h - {id}, root, dropped - {id}, a) == OwnersOf(h, root, dropped, a) {
      SlotFreed(h, root, dropped, id, a);
    }
  }

  lemma CountsAfterAdding(strings: seq<StringNode>, h: Heap, root: VariantData, dropped: set<SlotId>, strays: Strays,
                          id: SlotId, slot: VariantSlot)
    requires OwnersCount(strings, h, root, dropped, strays) && id !in h && !slot.data.OwnedString?
             && !slot.key.OwnedKey?
    ensures OwnersCount(strings, h[id := slot], root, dropped, strays)
  {
    forall a: Address ensures OwnersOf(h[id := slot], root, dropped, a) == OwnersOf(h, root, dropped, a) {
      SlotAdded(h, root, dropped, id, slot, a);
    }
  }

  lemma CountsAfterLinking(strings: seq<StringNode>, f: Forest, dropped: set<SlotId>, strays: Strays, id: SlotId,
                           next: SlotId)
    requires OwnersCount(strings, f.h, f.root, dropped, strays) && id in f.h
    ensures var g := WithNext(f, id, next); OwnersCount(strings, g.h, g.root, dropped, strays)
  {
    forall a: Address ensures OwnersOf(WithNext(f, id, next).h, f.root, dropped, a) == OwnersOf(f.h, f.root, dropped,
        a) {
      SlotChanged(f.h, f.root, dropped, id, f.h[id].(next := next), a);
    }
  }

  lemma CountsAfterTaking(strings: seq<StringNode>, after: seq<StringNode>, f: Forest, dropped: set<SlotId>,
                          strays: Strays,
                          p: Place, node: Address)
    requires OwnersCount(strings, f.h, f.root, dropped, strays) && HasPlace(f, p) && !DataAt(f, p).OwnedString?
    requires forall a: Address :: Refs(after, a) == Refs(strings, a) + OneIf(node == a)
    ensures var g := WithData(f, p, OwnedString(node)); OwnersCount(after, g.h, g.root, dropped, strays)
  {
    var g := WithData(f, p, OwnedString(node));
    forall a: Address
      ensures Refs(after, a) == OwnersOf(g.h, g.root, dropped, a) + strays[a]
    {
      DataChanged(f, dropped, p, OwnedString(node), a);
    }
  }

  /** A slot without a key gets one whose reference has been counted before. */
  lemma CountsAfterNaming(strings: seq<StringNode>, after: seq<StringNode>, h: Heap, root: VariantData,
                          dropped: set<SlotId>, strays: Strays,
                          id: SlotId, node: Address)
    requires OwnersCount(strings, h, root, dropped, strays) && id in h && !h[id].key.OwnedKey? && id !in dropped
    requires forall a: Address :: Refs(after, a) == Refs(strings, a) + OneIf(node == a)
    ensures OwnersCount(after, h[id := h[id].(key := OwnedKey(node))], root, dropped, strays)
  {
    var slot := h[id].(key := OwnedKey(node));
    forall a: Address
      ensures Refs(after, a) == OwnersOf(h[id := slot], root, dropped, a) + strays[a]
    {
      SlotChanged(h, root, dropped, id, slot, a);
    }
  }

  /** A reference counted for nobody. */
  lemma CountsWithStray(strings: seq<StringNode>, after: seq<StringNode>, h: Heap, root: VariantData,
                        dropped: set<SlotId>,
                        strays: Strays, node: Address)
    requires OwnersCount(strings, h, root, dropped, strays)
    requires forall a: Address :: Refs(after, a) == Refs(strings, a) + OneIf(node == a)
    ensures OwnersCount(after, h, root, dropped, strays + multiset{node})
  {
  }

  lemma NothingOwnsNothing(root: VariantData, a: Address)
    requires !root.OwnedString?
    ensures OwnersOf(map[], root, {}, a) == 0
  {
    assert KeyOwners(map[], {}, a) == {} && ValueOwners(map[], a) == {};
  }

  lemma UnreferencedIsEmpty(strings: seq<StringNode>)
    requires Distinct(strings) && forall a: Address :: Refs(strings, a) == 0
    ensures strings == []
  {
    assert strings != [] ==> Refs(strings, strings[0].data) == strings[0].references;
  }

  /** Once nothing is left that could own a string, only strays keep strings. */
  lemma NoOwnersNoStrings(strings: seq<StringNode>, root: VariantData, strays: Strays)
    requires OwnersCount(strings, map[], root, {}, strays) && Distinct(strings) && !root.OwnedString?
    ensures strings == [] <==> strays == multiset{}
  {
    forall a: Address ensures Refs(strings, a) == strays[a] {
      NothingOwnsNothing(root, a);
    }
    if strays == multiset{} {
      UnreferencedIsEmpty(strings);
    } else {
      var a :| a in strays;
      assert Refs(strings, a) > 0;
    }
  }

  /** Some string has more references than owners exactly when there are strays. */
  lemma MoreThanOwned(strings: seq<StringNode>, h: Heap, root: VariantData, strays: Strays)
    requires OwnersCount(strings, h, root, {}, strays)
    ensures (exists a: Address :: Refs(strings, a) > OwnersOf(h, root, {}, a)) <==> strays != multiset{}
  {
    if strays != multiset{} {
      var a :| a in strays;
      assert Refs(strings, a) > OwnersOf(h, root, {}, a);
    }
  }

  /** How many references a string can have: a slot owns it at most twice. */
  lemma ReferencesAreFew(strings: seq<StringNode>, h: Heap, root: VariantData, strays: Strays, a: Address)
    requires OwnersCount(strings, h, root, {}, strays)
    ensures Refs(strings, a) <= 2 * |h| + 1 + strays[a]
  {
    SubsetIsSmaller(KeyOwners(h, {}, a), h.Keys);
    SubsetIsSmaller(ValueOwners(h, a), h.Keys);
  }

  lemma {:induction false} SubsetIsSmaller(a: set<SlotId>, b: set<SlotId>)
    requires a <= b
    ensures |a| <= |b|
  {
    assert b == a + (b - a);
  }
}

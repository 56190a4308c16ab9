/** Operations on the place at a path, as operations on the value there. */
module DocumentEdits {
  import opened Bytes
  import opened Options
  import opened Document
  import opened Slots
  import opened StringPools
  import opened VariantPools
  import opened Forests
  import opened Releases
  import opened OwnerCounts
  import opened JsonDocuments
  import opened DocumentViews
  import opened DocumentPaths
  import opened DocumentHistories

  /** The path to child number k of the value at a path. */
  function Below(path: Path, k: nat): (r: Path)
    ensures |r| == |path| + 1 && r[..|path|] == path && r[|path|] == k
  {
    path + [k]
  }

  // Puts after one another.

  /** What is put last counts. */
  lemma {:induction false} PutTwice(v: Value, path: Path, a: Value, b: Value)
    requires Get(v, path).Some?
    ensures Put(Put(v, path, a), path, b) == Put(v, path, b)
    decreases |path|
  {
    if path == [] {
    } else {
      var k, above := path[|path| - 1], path[..|path| - 1];
      var u := Get(v, above).value;
      PutAndGet(v, above, PutChild(u, k, a));
      PutTwice(v, above, PutChild(u, k, a), PutChild(PutChild(u, k, a), k, b));
      assert PutChild(PutChild(u, k, a), k, b) == PutChild(u, k, b);
    }
  }

  /** A child put in a value that was put. */
  lemma {:induction false} PutDeeper(v: Value, path: Path, u: Value, k: nat, w: Value)
    requires Get(v, path).Some? && k < ChildCount(u)
    ensures Get(Put(v, path, u), path) == Some(u) && Get(Put(v, path, u), Below(path, k)) == Some(Child(u, k))
    ensures Put(Put(v, path, u), Below(path, k), w) == Put(v, path, PutChild(u, k, w))
  {
    PutAndGet(v, path, u);
    assert Below(path, k)[..|path|] == path;
    PutTwice(v, path, u, PutChild(u, k, w));
  }

  // Places that stay.

  /** The places that lead to the one at a path are the same. */
  ghost predicate SamePlaces(f: Forest, g: Forest, path: Path) {
    forall i | 0 <= i <= |path| :: PlaceAt(g, path[..i]) == PlaceAt(f, path[..i])
  }

  lemma SamePlace(f: Forest, g: Forest, path: Path)
    requires SamePlaces(f, g, path)
    ensures PlaceAt(g, path) == PlaceAt(f, path)
  {
    assert path[..|path|] == path;
  }

  lemma SamePlacesAbove(f: Forest, g: Forest, path: Path, k: nat)
    requires SamePlaces(f, g, Below(path, k))
    ensures SamePlaces(f, g, path)
  {
    forall i | 0 <= i <= |path| ensures PlaceAt(g, path[..i]) == PlaceAt(f, path[..i]) {
      assert Below(path, k)[..i] == path[..i];
    }
  }

  lemma SamePlacesTwice(f: Forest, g: Forest, h: Forest, path: Path)
    requires SamePlaces(f, g, path) && SamePlaces(g, h, path)
    ensures SamePlaces(f, h, path)
  {
  }

  lemma SamePlacesHere(f: Forest, path: Path)
    ensures SamePlaces(f, f, path)
  {
  }

  /** The lists above a place are as before. */
  ghost predicate StaysAbove(f: Forest, g: Forest, p: Place) {
    forall q | q in f.lists && Level(f, q) < Level(f, p) :: q in g.lists && g.lists[q] == f.lists[q]
  }

  lemma {:induction false} PlacesStay(f: Forest, g: Forest, nil: SlotId, path: Path, p: Place)
    requires Forests.Valid(f, nil) && PlaceAt(f, path) == Some(p) && StaysAbove(f, g, p)
    ensures SamePlaces(f, g, path)
    decreases |path|
  {
    hide Forests.Valid, Level;
    if path == [] {
      assert path[..0] == [];
    } else {
      var k, above := path[|path| - 1], path[..|path| - 1];
      var q := PlaceAt(f, above).value;
      ChildIsDeeper(f, nil, q, k);
      PlacesStay(f, g, nil, above, q);
      SamePlace(f, g, above);
      forall i | 0 <= i <= |path| ensures PlaceAt(g, path[..i]) == PlaceAt(f, path[..i]) {
        if i < |path| {
          assert path[..i] == above[..i];
        } else {
          assert path[..i] == path;
        }
      }
    }
  }

  lemma GrownStays(f: Forest, g: Forest, p: Place, ids: seq<SlotId>)
    requires Grown(f, g, p, ids)
    ensures StaysAbove(f, g, p)
  {
  }

  lemma NamedStays(f: Forest, g: Forest, strings: seq<StringNode>, p: Place, id: SlotId, key: bytes)
    requires Named(f, g, strings, p, id, key)
    ensures StaysAbove(f, g, p) && p in f.lists && p in g.lists && g.lists[p] == f.lists[p] + [id]
  {
  }

  lemma NullifiedStays(f: Forest, e: Forest, nil: SlotId, p: Place, F: set<SlotId>, d: VariantData)
    requires Forests.Valid(f, nil) && HasPlace(f, p) && Nullified(f, e, nil, p, F) && HasPlace(e, p)
    ensures StaysAbove(f, Replaced(e, p, d), p)
  {
    hide Forests.Valid, Replaced;
    NullifiedCloses(f, e, nil, p, F);
    hide Nullified;
    forall q | q in f.lists && Level(f, q) < Level(f, p)
      ensures var g := Replaced(e, p, d); q in g.lists && g.lists[q] == f.lists[q]
    {
      if p in f.lists {
        ClearedLiesBelow(f, nil, p, F, q);
      }
      ListStays(f, e, nil, p, F, d, q);
    }
  }

  lemma NullifiedCloses(f: Forest, e: Forest, nil: SlotId, p: Place, F: set<SlotId>)
    requires HasPlace(f, p) && Nullified(f, e, nil, p, F)
    ensures p in f.lists ==> Closure(f, SetOf(f.lists[p]), F)
  {
  }

  lemma ListStays(f: Forest, e: Forest, nil: SlotId, p: Place, F: set<SlotId>, d: VariantData, q: Place)
    requires HasPlace(f, p) && Nullified(f, e, nil, p, F) && HasPlace(e, p)
    requires q in f.lists && q != p && (p in f.lists && q.In? ==> q.id !in F)
    ensures var g := Replaced(e, p, d); q in g.lists && g.lists[q] == f.lists[q]
  {
    hide Closure, WithData;
  }

  lemma ClearedLiesBelow(f: Forest, nil: SlotId, p: Place, F: set<SlotId>, q: Place)
    requires Forests.Valid(f, nil) && p in f.lists && Closure(f, SetOf(f.lists[p]), F)
    requires q in f.lists && Level(f, q) < Level(f, p)
    ensures q.In? ==> q.id !in F
  {
    if q.In? && q.id in F {
      forall s | s in SetOf(f.lists[p]) ensures f.depth[s] > Level(f, p) - 1 {
        var k :| 0 <= k < |f.lists[p]| && f.lists[p][k] == s;
        ChildIsDeeper(f, nil, p, k);
      }
      UnderIsDeeper(f, SetOf(f.lists[p]), F, Level(f, p) - 1, q.id);
    }
  }

  // The operations.

  /** What holds before and after: the place at the path, and the value put there. */
  ghost predicate At(doc: JsonDocument, path: Path, p: Place)
    reads doc, doc.variantPools, doc.stringPool
  {
    doc.Whole() && PlaceAt(doc.forest, path) == Some(p) && HasPlace(doc.forest, p)
  }

  method PutScalar(doc: JsonDocument, ghost path: Path, p: Place, value: Scalar)
    requires At(doc, path, p)
    modifies doc`data, doc`forest, doc`dropped, doc.variantPools, doc.stringPool
    ensures doc.Whole() && At(doc, path, p) && SamePlaces(old(doc.forest), doc.forest, path)
    ensures Held(doc) == Put(old(Held(doc)), path, value) && doc.strays == old(doc.strays)
  {
    hide Forests.Valid, OwnersCount, Consistent, Distinct, ValueAt, Nullified, Replaced, TextsStay, Reduced, OpenAbove,
        Get, Put;
    ghost var f, nil, strings := doc.forest, doc.nil, doc.stringPool.strings;
    NothingOpen(f, p);
    ghost var F := doc.SetNull(p);
    NullifiedIsEmpty(f, doc.forest, nil, p, F);
    ghost var e := doc.forest;
    OwnedTextsStay(strings, doc.stringPool.strings, e.h, e.root, doc.strays);
    doc.StoreScalar(p, value);
    ValueIsReplaced(f, e, nil, strings, doc.stringPool.strings, p, F, Simple(value));
    HoleIsPut(f, nil, strings, path, value);
    NullifiedStays(f, e, nil, p, F, Simple(value));
    PlacesStay(f, doc.forest, nil, path, p);
    SamePlace(f, doc.forest, path);
  }

  method PutNull(doc: JsonDocument, ghost path: Path, p: Place)
    requires At(doc, path, p)
    modifies doc`data, doc`forest, doc`dropped, doc.variantPools, doc.stringPool
    ensures doc.Whole() && At(doc, path, p) && SamePlaces(old(doc.forest), doc.forest, path)
    ensures Held(doc) == Put(old(Held(doc)), path, Null) && doc.strays == old(doc.strays)
  {
    hide Forests.Valid, OwnersCount, Consistent, Distinct, ValueAt, Nullified, Replaced, TextsStay, Reduced, OpenAbove,
        Get, Put;
    ghost var f, nil, strings := doc.forest, doc.nil, doc.stringPool.strings;
    NothingOpen(f, p);
    ghost var F := doc.SetNull(p);
    ghost var e := doc.forest;
    NullifiedIsEmpty(f, e, nil, p, F);
    NullifiedAgain(f, e, nil, p, F);
    OwnedTextsStay(strings, doc.stringPool.strings, e.h, e.root, doc.strays);
    ValueIsReplaced(f, e, nil, strings, doc.stringPool.strings, p, F, Nothing());
    HoleIsPut(f, nil, strings, path, Null);
    NullifiedStays(f, e, nil, p, F, Nothing());
    PlacesStay(f, e, nil, path, p);
    SamePlace(f, e, path);
  }

  method PutString(doc: JsonDocument, ghost path: Path, p: Place, text: bytes)
    requires At(doc, path, p)
    modifies doc`data, doc`forest, doc`dropped, doc`overflowed, doc.variantPools, doc.stringPool
    ensures doc.Whole() && At(doc, path, p) && SamePlaces(old(doc.forest), doc.forest, path)
    ensures Held(doc) == Put(old(Held(doc)), path, Str(text)) && doc.strays == old(doc.strays)
    ensures old(doc.overflowed) ==> doc.overflowed
  {
    hide Forests.Valid, OwnersCount, Consistent, Distinct, ValueAt, Nullified, Replaced, TextsStay, Reduced, OpenAbove,
        Get, Put;
    ghost var f, nil, strings := doc.forest, doc.nil, doc.stringPool.strings;
    var node;
    ghost var F, e;
    node, F, e := doc.SetString(p, text, true);
    ghost var d := OwnedString(node.value);
    ValueIsReplaced(f, e, nil, strings, doc.stringPool.strings, p, F, d);
    HoleIsPut(f, nil, strings, path, Str(text));
    NullifiedStays(f, e, nil, p, F, d);
    PlacesStay(f, doc.forest, nil, path, p);
    SamePlace(f, doc.forest, path);
  }

  /** An empty collection, and its list. */
  method PutCollection(doc: JsonDocument, ghost path: Path, p: Place, isArray: bool)
    requires At(doc, path, p)
    modifies doc`data, doc`forest, doc`dropped, doc.variantPools, doc.stringPool
    ensures doc.Whole() && At(doc, path, p) && SamePlaces(old(doc.forest), doc.forest, path)
    ensures Held(doc) == Put(old(Held(doc)), path, if isArray then Arr([]) else Obj([]))
            && doc.strays == old(doc.strays)
  {
    hide Forests.Valid, OwnersCount, Consistent, Distinct, ValueAt, Nullified, Replaced, TextsStay, Reduced, OpenAbove,
        Get, Put;
    ghost var f, nil, strings := doc.forest, doc.nil, doc.stringPool.strings;
    ghost var F, e := doc.MakeCollection(p, isArray);
    ghost var d := if isArray then Array(nil, nil) else Object(nil, nil);
    ValueIsReplaced(f, e, nil, strings, doc.stringPool.strings, p, F, d);
    HoleIsPut(f, nil, strings, path, if isArray then Arr([]) else Obj([]));
    NullifiedStays(f, e, nil, p, F, d);
    PlacesStay(f, doc.forest, nil, path, p);
    SamePlace(f, doc.forest, path);
  }

  /** The array at a path has these elements. */
  lemma ArrayIsHere(f: Forest, nil: SlotId, strings: seq<StringNode>, path: Path, p: Place, v: Value)
    requires Forests.Valid(f, nil) && PlaceAt(f, path) == Some(p) && (v.Arr? || v.Obj?)
    requires Get(ValueAt(f, nil, strings, Nowhere, Root), path) == Some(v)
    ensures HasPlace(f, p) && p in f.lists && |f.lists[p]| == ChildCount(v) && ValueAt(f, nil, strings, Nowhere, p) == v
    ensures DataAt(f, p).Array? == v.Arr? && DataAt(f, p).Object? == v.Obj?
  {
    HoleIsPut(f, nil, strings, path, Null);
    SizeIs(f, nil, strings, p);
    CollectionHasList(f, nil, p);
    hide Forests.Valid, ValueAt;
  }

  lemma NullBehind(vs: seq<Value>)
    ensures WithNulls(Arr(vs), 1) == Arr(vs + [Null])
  {
    assert vs + seq(1, _ => Null) == vs + [Null];
  }

  /** One more element, null so far; or no memory. */
  method PutNewElement(doc: JsonDocument, ghost path: Path, p: Place, ghost vs: seq<Value>, growOk: bool, poolOk: bool)
    returns (id: SlotId)
    requires At(doc, path, p) && Get(Held(doc), path) == Some(Arr(vs))
    modifies doc`data, doc`forest, doc`overflowed, doc.variantPools
    ensures doc.Whole() && At(doc, path, p) && SamePlaces(old(doc.forest), doc.forest, path)
            && doc.strays == old(doc.strays)
    ensures old(doc.overflowed) ==> doc.overflowed
    ensures id == doc.nil ==> doc.overflowed && Held(doc) == old(Held(doc))
    ensures id != doc.nil ==>
              Held(doc) == Put(old(Held(doc)), path, Arr(vs + [Null])) && At(doc, Below(path, |vs|), In(id))
  {
    hide Forests.Valid, OwnersCount, Consistent, Distinct, ValueAt, Grown, Get, Put, WithNulls;
    ghost var f, nil, strings := doc.forest, doc.nil, doc.stringPool.strings;
    ArrayIsHere(f, nil, strings, path, p, Arr(vs));
    id := doc.AddSlot(p, growOk, poolOk);
    SamePlacesHere(f, path);
    if id != nil {
      SlotsAreNulls(f, doc.forest, nil, strings, p, [id]);
      NullBehind(vs);
      HoleIsPut(f, nil, strings, path, Arr(vs + [Null]));
      GrownStays(f, doc.forest, p, [id]);
      PlacesStay(f, doc.forest, nil, path, p);
      SamePlace(f, doc.forest, path);
      NewPlace(f, doc.forest, p, id, path, |vs|);
    }
  }

  lemma NewPlace(f: Forest, g: Forest, p: Place, id: SlotId, path: Path, n: nat)
    requires Grown(f, g, p, [id]) && PlaceAt(g, path) == Some(p) && n == |f.lists[p]|
    ensures PlaceAt(g, Below(path, n)) == Some(In(id)) && HasPlace(g, In(id))
  {
    assert Below(path, n)[..|path|] == path;
    assert id in [id];
  }

  /** One more member, null so far; or no memory, and the key is a stray. */
  method PutNewMember(doc: JsonDocument, ghost path: Path, p: Place, ghost ms: seq<Member>, key: bytes, growOk: bool,
                      poolOk: bool)
    returns (id: SlotId)
    requires At(doc, path, p) && Get(Held(doc), path) == Some(Obj(ms))
    modifies doc`data, doc`forest, doc`overflowed, doc`strays, doc.variantPools, doc.stringPool
    ensures doc.Whole() && At(doc, path, p) && SamePlaces(old(doc.forest), doc.forest, path)
    ensures (old(doc.overflowed) ==> doc.overflowed) && (doc.overflowed || doc.strays == old(doc.strays))
    ensures id == doc.nil ==> doc.overflowed
    ensures id != doc.nil ==>
              Held(doc) == Put(old(Held(doc)), path, Obj(ms + [Member(key, Null)]))
                  && At(doc, Below(path, |ms|), In(id))
  {
    hide Forests.Valid, OwnersCount, Consistent, Distinct, ValueAt, Named, Get, Put, TextsStay, SamePlaces, PlaceAt,
        KeyIsSaved;
    ghost var f, nil, strings := doc.forest, doc.nil, doc.stringPool.strings;
    ArrayIsHere(f, nil, strings, path, p, Obj(ms));
    id := doc.AddMember(p, key, true, growOk, poolOk);
    SamePlacesHere(f, path);
    if id != nil {
      MemberIsPut(f, doc.forest, nil, strings, doc.stringPool.strings, path, p, ms, id, key);
    }
  }

  lemma {:induction false} MemberIsPut(f: Forest, g: Forest, nil: SlotId, before: seq<StringNode>,
                                       after: seq<StringNode>,
                                       path: Path, p: Place, ms: seq<Member>, id: SlotId, key: bytes)
    requires Forests.Valid(f, nil) && Forests.Valid(g, nil) && PlaceAt(f, path) == Some(p) && HasPlace(f, p)
    requires Named(f, g, after, p, id, key) && TextsStay(before, after, f.h, f.root)
    requires ValueAt(f, nil, before, Nowhere, p) == Obj(ms) && DataAt(f, p).Object? && |f.lists[p]| == |ms|
    ensures ValueAt(g, nil, after, Nowhere, Root)
            == Put(ValueAt(f, nil, before, Nowhere, Root), path, Obj(ms + [Member(key, Null)]))
    ensures SamePlaces(f, g, path) && PlaceAt(g, path) == Some(p) && HasPlace(g, p)
    ensures PlaceAt(g, Below(path, |ms|)) == Some(In(id)) && HasPlace(g, In(id))
  {
    hide Forests.Valid, ValueAt, Named, Get, Put, TextsStay;
    MemberIsNull(f, g, nil, before, after, p, id, key);
    HoleIsPut(f, nil, before, path, Obj(ms + [Member(key, Null)]));
    NamedStays(f, g, after, p, id, key);
    PlacesStay(f, g, nil, path, p);
    SamePlace(f, g, path);
    NewMemberPlace(f, g, after, p, id, key, path, |ms|);
  }

  lemma NewMemberPlace(f: Forest, g: Forest, strings: seq<StringNode>, p: Place, id: SlotId, key: bytes, path: Path,
                       n: nat)
    requires Named(f, g, strings, p, id, key) && PlaceAt(g, path) == Some(p) && n == |f.lists[p]|
    ensures PlaceAt(g, Below(path, n)) == Some(In(id)) && HasPlace(g, In(id))
  {
    NamedStays(f, g, strings, p, id, key);
    assert Below(path, n)[..|path|] == path;
  }

  // Finding a member.

  lemma KeyIs(f: Forest, nil: SlotId, strings: seq<StringNode>, p: Place, k: nat, ms: seq<Member>)
    requires Forests.Valid(f, nil) && p in f.lists && k < |f.lists[p]| && HasPlace(f, p)
    requires ValueAt(f, nil, strings, Nowhere, p) == Obj(ms)
    ensures k < |ms| && f.lists[p][k] in f.h && ms[k].key == KeyText(strings, f.h[f.lists[p][k]].key)
  {
    CollectionIs(f, nil, strings, p);
    ChildIsDeeper(f, nil, p, k);
    hide Forests.Valid, ValueAt, KeyText, Level;
    assert Children(f, nil, strings, Nowhere, p)[k] == ChildOf(f, nil, strings, Nowhere, p, k);
  }

  lemma SlotLinks(f: Forest, nil: SlotId, p: Place, k: nat)
    requires Forests.Valid(f, nil) && p in f.lists && k < |f.lists[p]|
    ensures f.lists[p][k] in f.h && Link(f.lists[p], k, nil) != nil
    ensures f.h[f.lists[p][k]].next == Link(f.lists[p], k + 1, nil)
  {
    LinkIsNoNil(f, nil, p, k);
    LinkSlot(f, nil, p, k);
  }

  /** ObjectData::findKey: the first member with this key. */
  method FindMember(doc: JsonDocument, ghost path: Path, p: Place, ghost ms: seq<Member>, key: bytes)
    returns (id: SlotId, ghost k: nat)
    requires At(doc, path, p) && Get(Held(doc), path) == Some(Obj(ms))
    ensures forall i | 0 <= i < k :: i < |ms| && ms[i].key != key
    ensures id == doc.nil ==> k == |ms|
    ensures id != doc.nil ==> k < |ms| && ms[k].key == key && At(doc, Below(path, k), In(id))
  {
    hide Forests.Valid, OwnersCount, Consistent, Distinct, ValueAt, Get, KeyText;
    ghost var f, nil, strings := doc.forest, doc.nil, doc.stringPool.strings;
    ArrayIsHere(f, nil, strings, path, p, Obj(ms));
    ListIsHere(f, nil, p);
    var d := doc.DataOf(p);
    id := d.head;
    k := 0;
    while id != doc.nil
      invariant k <= |ms| && id == Link(f.lists[p], k, nil)
      invariant forall i | 0 <= i < k :: ms[i].key != key
      decreases |ms| - k
    {
      LinkLeadsOn(f, nil, p, k);
      KeyIs(f, nil, strings, p, k, ms);
      SlotLinks(f, nil, p, k);
      var slot := doc.variantPools.GetSlot(id);
      if KeyText(doc.stringPool.strings, slot.key) == key {
        assert Below(path, k)[..|path|] == path;
        return;
      }
      id := slot.next;
      k := k + 1;
    }
    LinkLeadsOn(f, nil, p, k);
  }
}

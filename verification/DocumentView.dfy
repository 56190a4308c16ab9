/** The value a document holds, read off its slots, and what the operations on
    the slots do to it. */
module DocumentViews {
  import opened Bytes
  import opened Options
  import opened Document
  import opened Slots
  import opened StringPools
  import opened VariantPools
  import opened Forests
  import opened Releases
  import opened OwnerCounts
  import opened JsonDocuments

  /** A place where a value stands instead of what is there. */
  datatype Hole = Nowhere | Hole(at: Place, value: Value)

  function TextAt(strings: seq<StringNode>, a: Address): bytes {
    match TextOf(strings, a)
    case None => []
    case Some(text) => text
  }

  function KeyText(strings: seq<StringNode>, key: Key): bytes {
    match key
    case NoKey => []
    case LinkedKey(text) => text
    case OwnedKey(node) => TextAt(strings, node)
  }

  function Values(ms: seq<Member>): seq<Value> {
    seq(|ms|, i requires 0 <= i < |ms| => ms[i].value)
  }

  ghost function ValueAt(f: Forest, nil: SlotId, strings: seq<StringNode>, hole: Hole, p: Place): Value
    requires Forests.Valid(f, nil) && HasPlace(f, p)
    decreases f.limit + 1 - Level(f, p), 2
  {
    if hole.Hole? && hole.at == p then hole.value
    else
      match DataAt(f, p)
      case Simple(value) => value
      case OwnedString(node) => Str(TextAt(strings, node))
      case Array(_, _) => Arr(Values(Children(f, nil, strings, hole, p)))
      case Object(_, _) => Obj(Children(f, nil, strings, hole, p))
  }

  /** What the slots of a list hold; in an array they have no keys. */
  ghost function Children(f: Forest, nil: SlotId, strings: seq<StringNode>, hole: Hole, p: Place): seq<Member>
    requires Forests.Valid(f, nil) && p in f.lists
    decreases f.limit + 1 - Level(f, p), 1
  {
    seq(|f.lists[p]|, k requires 0 <= k < |f.lists[p]| => ChildOf(f, nil, strings, hole, p, k))
  }

  ghost function ChildOf(f: Forest, nil: SlotId, strings: seq<StringNode>, hole: Hole, p: Place, k: nat): Member
    requires Forests.Valid(f, nil) && p in f.lists && k < |f.lists[p]|
    decreases f.limit + 1 - Level(f, p), 0
  {
    ChildIsDeeper(f, nil, p, k);
    Member(KeyText(strings, f.h[f.lists[p][k]].key), ValueAt(f, nil, strings, hole, In(f.lists[p][k])))
  }

  lemma ChildIsDeeper(f: Forest, nil: SlotId, p: Place, k: nat)
    requires Forests.Valid(f, nil) && p in f.lists && k < |f.lists[p]|
    ensures var id := f.lists[p][k];
            id in f.h && HasPlace(f, In(id)) && HasPlace(f, p) && Level(f, p) < Level(f, In(id)) <= f.limit
            && id in f.owner && f.owner[id] == p
  {
    InTheList(f, p, f.lists[p][k]);
    assert f.lists[p][k] in f.h;
  }

  lemma CollectionHasList(f: Forest, nil: SlotId, p: Place)
    requires Forests.Valid(f, nil) && HasPlace(f, p)
    ensures p in f.lists <==> DataAt(f, p).IsCollection()
  {
  }

  lemma PlaceIsShallow(f: Forest, nil: SlotId, p: Place)
    requires Forests.Valid(f, nil) && HasPlace(f, p)
    ensures Level(f, p) <= f.limit
  {
  }

  // What is somewhere else stays as it is.

  /** The two forests may differ at p; and slots may be in one only. */
  ghost predicate Elsewhere(f: Forest, g: Forest, before: seq<StringNode>, after: seq<StringNode>, p: Place) {
    && (forall q | q != p && HasPlace(f, q) && HasPlace(g, q) ::
          && DataAt(g, q) == DataAt(f, q)
          && (q in f.lists ==> q in g.lists && g.lists[q] == f.lists[q])
          && (DataAt(f, q).OwnedString? ==> TextAt(after, DataAt(f, q).node) == TextAt(before, DataAt(f, q).node)))
    && (forall x <- f.h | x in g.h :: KeyText(after, g.h[x].key) == KeyText(before, f.h[x].key))
  }

  lemma {:induction false} ValueIsKept(f: Forest, g: Forest, nil: SlotId, before: seq<StringNode>,
                                       after: seq<StringNode>,
                                       p: Place, w: Value, q: Place)
    requires Forests.Valid(f, nil) && Forests.Valid(g, nil) && Elsewhere(f, g, before, after, p)
    requires HasPlace(f, q) && HasPlace(g, q)
    ensures ValueAt(g, nil, after, Hole(p, w), q) == ValueAt(f, nil, before, Hole(p, w), q)
    decreases f.limit + 1 - Level(f, q), 1
  {
    hide Forests.Valid, Children, Values, TextAt, Level;
    CollectionHasList(f, nil, q);
    PlaceIsShallow(f, nil, q);
    if q != p && q in f.lists {
      ChildrenAreKept(f, g, nil, before, after, p, w, q);
    }
  }

  lemma {:induction false} ChildrenAreKept(f: Forest, g: Forest, nil: SlotId, before: seq<StringNode>,
                                           after: seq<StringNode>,
                                           p: Place, w: Value, q: Place)
    requires Forests.Valid(f, nil) && Forests.Valid(g, nil) && Elsewhere(f, g, before, after, p)
    requires q != p && q in f.lists && HasPlace(f, q) && HasPlace(g, q)
    ensures q in g.lists && Children(g, nil, after, Hole(p, w), q) == Children(f, nil, before, Hole(p, w), q)
    decreases f.limit + 1 - Level(f, q), 0
  {
    hide Forests.Valid, ValueAt, KeyText, Level;
    assert g.lists[q] == f.lists[q];
    PlaceIsShallow(f, nil, q);
    forall k | 0 <= k < |f.lists[q]|
      ensures ChildOf(g, nil, after, Hole(p, w), q, k) == ChildOf(f, nil, before, Hole(p, w), q, k)
    {
      ChildIsDeeper(f, nil, q, k);
      ChildIsDeeper(g, nil, q, k);
      ValueIsKept(f, g, nil, before, after, p, w, In(f.lists[q][k]));
    }
  }

  /** Below p, or when the value is the one that is at p, the hole does not show. */
  lemma {:induction false} HoleIsFilled(f: Forest, nil: SlotId, strings: seq<StringNode>, p: Place, w: Value, q: Place)
    requires Forests.Valid(f, nil) && HasPlace(f, p) && HasPlace(f, q)
    requires Level(f, q) > Level(f, p) || w == ValueAt(f, nil, strings, Nowhere, p)
    ensures ValueAt(f, nil, strings, Hole(p, w), q) == ValueAt(f, nil, strings, Nowhere, q)
    decreases f.limit + 1 - Level(f, q), 1
  {
    hide Forests.Valid, Children, Values, TextAt, Level;
    CollectionHasList(f, nil, q);
    PlaceIsShallow(f, nil, q);
    if q != p && q in f.lists {
      HolesAreFilled(f, nil, strings, p, w, q);
    }
  }

  lemma {:induction false} HolesAreFilled(f: Forest, nil: SlotId, strings: seq<StringNode>, p: Place, w: Value,
                                          q: Place)
    requires Forests.Valid(f, nil) && HasPlace(f, p) && q in f.lists && HasPlace(f, q)
    requires Level(f, q) > Level(f, p) || w == ValueAt(f, nil, strings, Nowhere, p)
    ensures Children(f, nil, strings, Hole(p, w), q) == Children(f, nil, strings, Nowhere, q)
    decreases f.limit + 1 - Level(f, q), 0
  {
    hide Forests.Valid, ValueAt, KeyText, Level;
    PlaceIsShallow(f, nil, q);
    forall k | 0 <= k < |f.lists[q]|
      ensures ChildOf(f, nil, strings, Hole(p, w), q, k) == ChildOf(f, nil, strings, Nowhere, q, k)
    {
      ChildIsDeeper(f, nil, q, k);
      HoleIsFilled(f, nil, strings, p, w, In(f.lists[q][k]));
    }
  }

  /** The document is the one before, but for the value at p. */
  lemma OnlyThisChanges(f: Forest, g: Forest, nil: SlotId, before: seq<StringNode>, after: seq<StringNode>, p: Place)
    requires Forests.Valid(f, nil) && Forests.Valid(g, nil) && Elsewhere(f, g, before, after, p)
    requires HasPlace(f, p) && HasPlace(g, p)
    ensures ValueAt(g, nil, after, Nowhere, Root)
            == ValueAt(f, nil, before, Hole(p, ValueAt(g, nil, after, Nowhere, p)), Root)
  {
    hide Forests.Valid, ValueAt, Elsewhere;
    var w := ValueAt(g, nil, after, Nowhere, p);
    ValueIsKept(f, g, nil, before, after, p, w, Root);
    HoleIsFilled(g, nil, after, p, w, Root);
  }

  /** A slot that stays in the list at p still holds what it held. */
  lemma ChildStays(f: Forest, g: Forest, nil: SlotId, before: seq<StringNode>, after: seq<StringNode>, p: Place,
                   i: nat, j: nat)
    requires Forests.Valid(f, nil) && Forests.Valid(g, nil) && Elsewhere(f, g, before, after, p)
    requires p in f.lists && i < |f.lists[p]| && p in g.lists && j < |g.lists[p]| && g.lists[p][j] == f.lists[p][i]
    ensures ChildOf(g, nil, after, Nowhere, p, j) == ChildOf(f, nil, before, Nowhere, p, i)
  {
    hide Forests.Valid, ValueAt, KeyText, Level;
    ChildIsDeeper(f, nil, p, i);
    ChildIsDeeper(g, nil, p, j);
    var q := In(f.lists[p][i]);
    HoleIsFilled(f, nil, before, p, Null, q);
    HoleIsFilled(g, nil, after, p, Null, q);
    ValueIsKept(f, g, nil, before, after, p, Null, q);
  }

  lemma CollectionIs(f: Forest, nil: SlotId, strings: seq<StringNode>, p: Place)
    requires Forests.Valid(f, nil) && p in f.lists
    ensures HasPlace(f, p)
    ensures |Children(f, nil, strings, Nowhere, p)| == |f.lists[p]|
    ensures ValueAt(f, nil, strings, Nowhere, p) == Holding(DataAt(f, p).Array?, Children(f, nil, strings, Nowhere, p))
    ensures ChildCount(ValueAt(f, nil, strings, Nowhere, p)) == |f.lists[p]|
  {
    CollectionHere(f, p);
    hide Forests.Valid;
  }

  // The operations as operations on lists of values.

  function Nameless(n: nat): seq<Member> {
    seq(n, _ => Member([], Null))
  }

  function ChildCount(v: Value): nat {
    match v
    case Arr(elems) => |elems|
    case Obj(members) => |members|
    case _ => 0
  }

  /** Nulls added to an array, or members without a name yet to an object. */
  function WithNulls(v: Value, n: nat): Value {
    match v
    case Arr(elems) => Arr(elems + seq(n, _ => Null))
    case Obj(members) => Obj(members + Nameless(n))
    case _ => v
  }

  function WithMember(v: Value, m: Member): Value {
    match v
    case Obj(members) => Obj(members + [m])
    case _ => v
  }

  /** Element or member number k taken out. */
  function WithoutChild(v: Value, k: nat): Value
    requires k < ChildCount(v)
  {
    match v
    case Arr(elems) => Arr(elems[..k] + elems[k + 1..])
    case Obj(members) => Obj(members[..k] + members[k + 1..])
    case _ => v
  }

  /** A collection's value from its list. */
  function Holding(isArray: bool, ms: seq<Member>): Value {
    if isArray then Arr(Values(ms)) else Obj(ms)
  }

  /** The operations on members are operations on values. */
  lemma HoldingMore(isArray: bool, ms: seq<Member>, n: nat)
    ensures Holding(isArray, ms + Nameless(n)) == WithNulls(Holding(isArray, ms), n)
  {
    assert Values(ms + Nameless(n)) == Values(ms) + seq(n, _ => Null);
  }

  lemma HoldingLess(isArray: bool, ms: seq<Member>, k: nat)
    requires k < |ms|
    ensures k < ChildCount(Holding(isArray, ms))
    ensures Holding(isArray, ms[..k] + ms[k + 1..]) == WithoutChild(Holding(isArray, ms), k)
  {
    assert Values(ms[..k] + ms[k + 1..]) == Values(ms)[..k] + Values(ms)[k + 1..];
  }

  /** Added slots are nulls behind the elements of the array, or members of the
      object without a name yet; the rest of the document is as before. */
  lemma SlotsAreNulls(f: Forest, g: Forest, nil: SlotId, strings: seq<StringNode>, p: Place, ids: seq<SlotId>)
    requires Forests.Valid(f, nil) && Forests.Valid(g, nil) && Grown(f, g, p, ids)
    ensures HasPlace(f, p) && HasPlace(g, p)
    ensures ChildCount(ValueAt(f, nil, strings, Nowhere, p)) == |f.lists[p]|
    ensures ValueAt(g, nil, strings, Nowhere, p) == WithNulls(ValueAt(f, nil, strings, Nowhere, p), |ids|)
    ensures ValueAt(g, nil, strings, Nowhere, Root)
            == ValueAt(f, nil, strings, Hole(p, ValueAt(g, nil, strings, Nowhere, p)), Root)
  {
    CollectionIs(f, nil, strings, p);
    GrownElsewhere(f, g, strings, p, ids);
    hide Forests.Valid, Children, ValueAt, Elsewhere, Level, WithNulls, Holding, Grown;
    CollectionIs(g, nil, strings, p);
    ChildrenGrow(f, g, nil, strings, p, ids);
    OnlyThisChanges(f, g, nil, strings, strings, p);
    HoldingMore(DataAt(f, p).Array?, Children(f, nil, strings, Nowhere, p), |ids|);
  }

  lemma GrownElsewhere(f: Forest, g: Forest, strings: seq<StringNode>, p: Place, ids: seq<SlotId>)
    requires Grown(f, g, p, ids) && HasPlace(f, p)
    ensures Elsewhere(f, g, strings, strings, p)
    ensures p in g.lists && HasPlace(g, p) && DataAt(g, p).Array? == DataAt(f, p).Array?
  {
  }

  lemma ChildrenGrow(f: Forest, g: Forest, nil: SlotId, strings: seq<StringNode>, p: Place, ids: seq<SlotId>)
    requires Forests.Valid(f, nil) && Forests.Valid(g, nil) && Grown(f, g, p, ids)
             && Elsewhere(f, g, strings, strings, p)
    ensures p in g.lists
    ensures Children(g, nil, strings, Nowhere, p) == Children(f, nil, strings, Nowhere, p) + Nameless(|ids|)
  {
    hide Forests.Valid, ValueAt, Elsewhere, Level;
    assert g.lists[p] == f.lists[p] + ids;
    forall k | 0 <= k < |g.lists[p]|
      ensures ChildOf(g, nil, strings, Nowhere, p, k)
              == if k < |f.lists[p]| then ChildOf(f, nil, strings, Nowhere, p, k) else Member([], Null)
    {
      if k < |f.lists[p]| {
        ChildStays(f, g, nil, strings, strings, p, k, k);
      } else {
        NewSlotIsNull(f, g, nil, strings, p, ids, k);
      }
    }
  }

  lemma NewSlotIsNull(f: Forest, g: Forest, nil: SlotId, strings: seq<StringNode>, p: Place, ids: seq<SlotId>, k: nat)
    requires Forests.Valid(g, nil) && Grown(f, g, p, ids) && |f.lists[p]| <= k < |f.lists[p]| + |ids|
    ensures ChildOf(g, nil, strings, Nowhere, p, k) == Member([], Null)
  {
    hide Forests.Valid, Level;
    ChildIsDeeper(g, nil, p, k);
    assert g.lists[p][k] == ids[k - |f.lists[p]|];
    assert ids[k - |f.lists[p]|] in ids;
  }

  /** A removed slot takes its element or member out; the rest of the document
      is as before. */
  lemma SlotIsTakenOut(f: Forest, g: Forest, nil: SlotId, before: seq<StringNode>, after: seq<StringNode>,
                       p: Place, k: nat, F: set<SlotId>)
    requires Forests.Valid(f, nil) && Forests.Valid(g, nil) && Shortened(f, g, p, k, F)
    requires TextsStay(before, after, g.h, g.root)
    ensures HasPlace(f, p) && HasPlace(g, p)
    ensures k < ChildCount(ValueAt(f, nil, before, Nowhere, p))
    ensures ValueAt(g, nil, after, Nowhere, p) == WithoutChild(ValueAt(f, nil, before, Nowhere, p), k)
    ensures ValueAt(g, nil, after, Nowhere, Root)
            == ValueAt(f, nil, before, Hole(p, ValueAt(g, nil, after, Nowhere, p)), Root)
  {
    assert p in f.lists && k < |f.lists[p]|;
    hide Forests.Valid, Children, ValueAt, Elsewhere, Level, Shortened, TextsStay, Holding, WithoutChild, ChildCount;
    CollectionIs(f, nil, before, p);
    ShortenedElsewhere(f, g, before, after, p, k, F);
    CollectionIs(g, nil, after, p);
    ChildrenAreCut(f, g, nil, before, after, p, k, F);
    OnlyThisChanges(f, g, nil, before, after, p);
    HoldingLess(DataAt(f, p).Array?, Children(f, nil, before, Nowhere, p), k);
  }

  lemma ShortenedElsewhere(f: Forest, g: Forest, before: seq<StringNode>, after: seq<StringNode>, p: Place, k: nat,
                           F: set<SlotId>)
    requires Shortened(f, g, p, k, F) && HasPlace(f, p) && TextsStay(before, after, g.h, g.root)
    ensures Elsewhere(f, g, before, after, p)
    ensures p in g.lists && HasPlace(g, p) && DataAt(g, p).Array? == DataAt(f, p).Array?
  {
    hide TextsStay;
    forall q | q != p && HasPlace(f, q) && HasPlace(g, q)
      ensures DataAt(g, q) == DataAt(f, q)
      ensures q in f.lists ==> q in g.lists && g.lists[q] == f.lists[q]
      ensures DataAt(f, q).OwnedString? ==> TextAt(after, DataAt(f, q).node) == TextAt(before, DataAt(f, q).node)
    {
      OwnedReadsTheSame(g, before, after, q);
    }
    forall x | x in f.h && x in g.h ensures KeyText(after, g.h[x].key) == KeyText(before, f.h[x].key) {
      KeyReadsTheSame(g, before, after, x);
    }
  }

  lemma OwnedReadsTheSame(g: Forest, before: seq<StringNode>, after: seq<StringNode>, q: Place)
    requires TextsStay(before, after, g.h, g.root) && HasPlace(g, q)
    ensures DataAt(g, q).OwnedString? ==> TextAt(after, DataAt(g, q).node) == TextAt(before, DataAt(g, q).node)
  {
    if DataAt(g, q).OwnedString? && q.In? {
      assert q.id in ValueOwners(g.h, DataAt(g, q).node);
    }
  }

  lemma KeyReadsTheSame(g: Forest, before: seq<StringNode>, after: seq<StringNode>, x: SlotId)
    requires TextsStay(before, after, g.h, g.root) && x in g.h
    ensures KeyText(after, g.h[x].key) == KeyText(before, g.h[x].key)
  {
    if g.h[x].key.OwnedKey? {
      assert x in KeyOwners(g.h, {}, g.h[x].key.node);
    }
  }

  lemma ChildrenAreCut(f: Forest, g: Forest, nil: SlotId, before: seq<StringNode>, after: seq<StringNode>, p: Place,
                       k: nat, F: set<SlotId>)
    requires Forests.Valid(f, nil) && Forests.Valid(g, nil) && Shortened(f, g, p, k, F)
             && Elsewhere(f, g, before, after, p)
    ensures p in g.lists
    ensures var ms := Children(f, nil, before, Nowhere, p);
            |ms| == |f.lists[p]| && Children(g, nil, after, Nowhere, p) == ms[..k] + ms[k + 1..]
  {
    hide Forests.Valid, ValueAt, Elsewhere, Level, ChildOf;
    CutAt(f.lists[p], k);
    forall j | 0 <= j < |g.lists[p]|
      ensures ChildOf(g, nil, after, Nowhere, p, j) == ChildOf(f, nil, before, Nowhere, p, if j < k then j else j + 1)
    {
      ChildStays(f, g, nil, before, after, p, if j < k then j else j + 1, j);
    }
  }

  /** A named member is a null behind the members of the object. */
  lemma MemberIsNull(f: Forest, g: Forest, nil: SlotId, before: seq<StringNode>, after: seq<StringNode>, p: Place,
                     id: SlotId, key: bytes)
    requires Forests.Valid(f, nil) && Forests.Valid(g, nil) && Named(f, g, after, p, id, key)
    requires TextsStay(before, after, f.h, f.root)
    ensures HasPlace(f, p) && HasPlace(g, p)
    ensures DataAt(f, p).Object? ==>
              ValueAt(g, nil, after, Nowhere, p) == WithMember(ValueAt(f, nil, before, Nowhere, p), Member(key, Null))
    ensures ValueAt(g, nil, after, Nowhere, Root)
            == ValueAt(f, nil, before, Hole(p, ValueAt(g, nil, after, Nowhere, p)), Root)
  {
    CollectionIs(f, nil, before, p);
    NamedElsewhere(f, g, before, after, p, id, key);
    CollectionIs(g, nil, after, p);
    ChildrenAndOne(f, g, nil, before, after, p, id, key);
    OnlyThisChanges(f, g, nil, before, after, p);
  }

  lemma NamedElsewhere(f: Forest, g: Forest, before: seq<StringNode>, after: seq<StringNode>, p: Place, id: SlotId,
                       key: bytes)
    requires Named(f, g, after, p, id, key) && HasPlace(f, p) && TextsStay(before, after, f.h, f.root)
    ensures Elsewhere(f, g, before, after, p)
    ensures p in g.lists && HasPlace(g, p) && DataAt(g, p).Array? == DataAt(f, p).Array?
    ensures g.lists[p] == f.lists[p] + [id] && id in g.h && g.h[id].data == Nothing()
  {
    hide TextsStay;
    var e := WithKey(g, id, NoKey);
    assert id in [id];
    assert forall q | HasPlace(g, q) :: HasPlace(e, q) && DataAt(e, q) == DataAt(g, q);
    forall q | q != p && HasPlace(f, q) && HasPlace(g, q)
      ensures DataAt(g, q) == DataAt(f, q)
      ensures q in f.lists ==> q in g.lists && g.lists[q] == f.lists[q]
      ensures DataAt(f, q).OwnedString? ==> TextAt(after, DataAt(f, q).node) == TextAt(before, DataAt(f, q).node)
    {
      assert HasPlace(e, q) && DataAt(e, q) == DataAt(f, q);
      OwnedReadsTheSame(f, before, after, q);
    }
    forall x | x in f.h && x in g.h ensures KeyText(after, g.h[x].key) == KeyText(before, f.h[x].key) {
      assert x in e.h && e.h[x].key == f.h[x].key && x != id;
      KeyReadsTheSame(f, before, after, x);
    }
  }

  lemma ChildrenAndOne(f: Forest, g: Forest, nil: SlotId, before: seq<StringNode>, after: seq<StringNode>, p: Place,
                       id: SlotId, key: bytes)
    requires Forests.Valid(f, nil) && Forests.Valid(g, nil) && Named(f, g, after, p, id, key)
             && Elsewhere(f, g, before, after, p)
    requires p in f.lists && p in g.lists && g.lists[p] == f.lists[p] + [id] && id in g.h && g.h[id].data == Nothing()
    ensures Children(g, nil, after, Nowhere, p) == Children(f, nil, before, Nowhere, p) + [Member(key, Null)]
  {
    hide Forests.Valid, Elsewhere, Level, ChildOf, Grown;
    forall k | 0 <= k < |g.lists[p]|
      ensures ChildOf(g, nil, after, Nowhere, p, k)
              == if k < |f.lists[p]| then ChildOf(f, nil, before, Nowhere, p, k) else Member(key, Null)
    {
      if k < |f.lists[p]| {
        ChildStays(f, g, nil, before, after, p, k, k);
      } else {
        NewMemberIsNull(g, nil, after, p, id, key, k);
      }
    }
  }

  lemma NewMemberIsNull(g: Forest, nil: SlotId, strings: seq<StringNode>, p: Place, id: SlotId, key: bytes, k: nat)
    requires Forests.Valid(g, nil) && p in g.lists && k < |g.lists[p]| && g.lists[p][k] == id
    requires id in g.h && g.h[id].data == Nothing() && g.h[id].key.OwnedKey?
             && TextOf(strings, g.h[id].key.node) == Some(key)
    ensures ChildOf(g, nil, strings, Nowhere, p, k) == Member(key, Null)
  {
    hide Forests.Valid, Level;
    ChildIsDeeper(g, nil, p, k);
  }

  /** A value put in place of another, and of all that lay under it. */
  lemma ValueIsReplaced(f: Forest, e: Forest, nil: SlotId, before: seq<StringNode>, after: seq<StringNode>,
                        p: Place, F: set<SlotId>, d: VariantData)
    requires Forests.Valid(f, nil) && HasPlace(f, p) && Nullified(f, e, nil, p, F) && HasPlace(e, p)
    requires d.IsCollection() ==> d.head == nil && d.tail == nil
    requires Forests.Valid(Replaced(e, p, d), nil) && TextsStay(before, after, e.h, e.root)
    ensures var g := Replaced(e, p, d);
            && HasPlace(g, p)
            && ValueAt(g, nil, after, Nowhere, p)
               == (match d
                   case Simple(value) => value
                   case OwnedString(node) => Str(TextAt(after, node))
                   case Array(_, _) => Arr([])
                   case Object(_, _) => Obj([]))
            && ValueAt(g, nil, after, Nowhere, Root)
               == ValueAt(f, nil, before, Hole(p, ValueAt(g, nil, after, Nowhere, p)), Root)
  {
    var g := Replaced(e, p, d);
    ReplacedElsewhere(f, e, nil, before, after, p, F, d);
    OnlyThisChanges(f, g, nil, before, after, p);
    if d.IsCollection() {
      NoChildren(g, nil, after, p);
    }
  }

  lemma NoChildren(g: Forest, nil: SlotId, strings: seq<StringNode>, p: Place)
    requires Forests.Valid(g, nil) && p in g.lists && g.lists[p] == []
    ensures Children(g, nil, strings, Nowhere, p) == [] && Values([]) == []
  {
  }

  lemma NullifiedElsewhere(f: Forest, e: Forest, nil: SlotId, p: Place, F: set<SlotId>)
    requires HasPlace(f, p) && Nullified(f, e, nil, p, F)
    ensures forall q | q != p && HasPlace(e, q) ::
              HasPlace(f, q) && DataAt(e, q) == DataAt(f, q)
                  && (q in f.lists ==> q in e.lists && e.lists[q] == f.lists[q])
    ensures forall x <- e.h :: x in f.h && e.h[x].key == f.h[x].key
  {
    hide Closure;
    if p in f.lists {
      forall q | q != p && HasPlace(e, q)
        ensures HasPlace(f, q) && DataAt(e, q) == DataAt(f, q)
                && (q in f.lists ==> q in e.lists && e.lists[q] == f.lists[q])
      {
        assert HasPlace(Cleared(f, nil, p, F), q);
      }
    }
  }

  lemma ReplacedElsewhere(f: Forest, e: Forest, nil: SlotId, before: seq<StringNode>, after: seq<StringNode>,
                          p: Place, F: set<SlotId>, d: VariantData)
    requires HasPlace(f, p) && Nullified(f, e, nil, p, F) && HasPlace(e, p) && TextsStay(before, after, e.h, e.root)
    ensures var g := Replaced(e, p, d);
            && Elsewhere(f, g, before, after, p) && HasPlace(g, p) && DataAt(g, p) == d
            && (d.IsCollection() ==> p in g.lists && g.lists[p] == [])
  {
    hide TextsStay, Nullified;
    NullifiedElsewhere(f, e, nil, p, F);
    var g := Replaced(e, p, d);
    forall q | q != p && HasPlace(f, q) && HasPlace(g, q)
      ensures DataAt(g, q) == DataAt(f, q)
      ensures q in f.lists ==> q in g.lists && g.lists[q] == f.lists[q]
      ensures DataAt(f, q).OwnedString? ==> TextAt(after, DataAt(f, q).node) == TextAt(before, DataAt(f, q).node)
    {
      assert HasPlace(e, q);
      OwnedReadsTheSame(e, before, after, q);
    }
    forall x | x in f.h && x in g.h ensures KeyText(after, g.h[x].key) == KeyText(before, f.h[x].key) {
      assert x in e.h && g.h[x].key == e.h[x].key;
      KeyReadsTheSame(e, before, after, x);
    }
  }

  /** A collection cleared: it is empty, and the rest is as before. */
  lemma ValueIsCleared(f: Forest, nil: SlotId, before: seq<StringNode>, after: seq<StringNode>, p: Place,
                       F: set<SlotId>)
    requires Forests.Valid(f, nil) && p in f.lists && Closure(f, SetOf(f.lists[p]), F)
    requires (p.In? ==> p.id in f.h && p.id !in F) && DataAt(f, p).IsCollection()
    requires var g := Cleared(f, nil, p, F); Forests.Valid(g, nil) && TextsStay(before, after, g.h, g.root)
    ensures var g := Cleared(f, nil, p, F);
            && HasPlace(f, p) && HasPlace(g, p)
            && ValueAt(g, nil, after, Nowhere, p) == Holding(DataAt(f, p).Array?, [])
            && ValueAt(g, nil, after, Nowhere, Root)
               == ValueAt(f, nil, before, Hole(p, ValueAt(g, nil, after, Nowhere, p)), Root)
  {
    var g := Cleared(f, nil, p, F);
    ClearedElsewhere(f, nil, before, after, p, F);
    hide Forests.Valid, Cleared, Closure, TextsStay, Elsewhere, Holding;
    OnlyThisChanges(f, g, nil, before, after, p);
    CollectionIs(g, nil, after, p);
    NoChildren(g, nil, after, p);
  }

  lemma ClearedElsewhere(f: Forest, nil: SlotId, before: seq<StringNode>, after: seq<StringNode>, p: Place,
                         F: set<SlotId>)
    requires p in f.lists && (p.In? ==> p.id in f.h && p.id !in F) && DataAt(f, p).IsCollection()
    requires var g := Cleared(f, nil, p, F); TextsStay(before, after, g.h, g.root)
    ensures var g := Cleared(f, nil, p, F);
            && Elsewhere(f, g, before, after, p) && HasPlace(f, p) && HasPlace(g, p)
            && p in g.lists && g.lists[p] == [] && DataAt(g, p).Array? == DataAt(f, p).Array?
  {
    hide TextsStay;
    var g := Cleared(f, nil, p, F);
    forall q | q != p && HasPlace(f, q) && HasPlace(g, q)
      ensures DataAt(g, q) == DataAt(f, q)
      ensures q in f.lists ==> q in g.lists && g.lists[q] == f.lists[q]
      ensures DataAt(f, q).OwnedString? ==> TextAt(after, DataAt(f, q).node) == TextAt(before, DataAt(f, q).node)
    {
      OwnedReadsTheSame(g, before, after, q);
    }
    forall x | x in f.h && x in g.h ensures KeyText(after, g.h[x].key) == KeyText(before, f.h[x].key) {
      assert g.h[x].key == f.h[x].key;
      KeyReadsTheSame(g, before, after, x);
    }
  }

  // Nesting.

  ghost function NestingFrom(f: Forest, nil: SlotId, strings: seq<StringNode>, p: Place, k: nat): nat
    requires Forests.Valid(f, nil) && p in f.lists && k <= |f.lists[p]|
  {
    NestingOfMembers(Children(f, nil, strings, Nowhere, p)[k..])
  }

  lemma {:induction false} SameNesting(ms: seq<Member>)
    ensures NestingOfElems(Values(ms)) == NestingOfMembers(ms)
  {
    if ms != [] {
      SameNesting(ms[1..]);
      assert Values(ms)[1..] == Values(ms[1..]);
    }
  }

  lemma NestingGoesOn(f: Forest, nil: SlotId, strings: seq<StringNode>, p: Place, k: nat)
    requires Forests.Valid(f, nil) && p in f.lists && k < |f.lists[p]|
    ensures HasPlace(f, In(f.lists[p][k]))
    ensures NestingFrom(f, nil, strings, p, k)
            == Max(Nesting(ValueAt(f, nil, strings, Nowhere, In(f.lists[p][k]))),
                   NestingFrom(f, nil, strings, p, k + 1))
  {
    ChildIsDeeper(f, nil, p, k);
    hide Forests.Valid, ValueAt;
    var ms := Children(f, nil, strings, Nowhere, p);
    assert ms[k..][0] == ms[k] == ChildOf(f, nil, strings, Nowhere, p, k);
    assert ms[k..][1..] == ms[k + 1..];
  }

  lemma NestingEnds(f: Forest, nil: SlotId, strings: seq<StringNode>, p: Place)
    requires Forests.Valid(f, nil) && p in f.lists && HasPlace(f, p)
    ensures Nesting(ValueAt(f, nil, strings, Nowhere, p)) == 1 + NestingFrom(f, nil, strings, p, 0)
    ensures NestingFrom(f, nil, strings, p, |f.lists[p]|) == 0
  {
    CollectionIs(f, nil, strings, p);
    hide Forests.Valid, ValueAt;
    var ms := Children(f, nil, strings, Nowhere, p);
    assert ms[0..] == ms && ms[|f.lists[p]|..] == [];
    SameNesting(ms);
  }

  lemma NotNested(f: Forest, nil: SlotId, strings: seq<StringNode>, p: Place)
    requires Forests.Valid(f, nil) && HasPlace(f, p) && !DataAt(f, p).IsCollection()
    ensures Nesting(ValueAt(f, nil, strings, Nowhere, p)) == 0
  {
    hide Forests.Valid;
  }

  /** VariantData::nesting and CollectionData::nesting: how deep a value nests. */
  method NestingOf(doc: JsonDocument, p: Place) returns (n: nat)
    requires doc.Whole() && HasPlace(doc.forest, p)
    ensures n == Nesting(ValueAt(doc.forest, doc.nil, doc.stringPool.strings, Nowhere, p))
    decreases doc.forest.limit + 1 - Level(doc.forest, p)
  {
    hide Placed, Chained, Ended, Owned, Deep, OwnersCount, Consistent, Distinct, ValueAt, Nesting, NestingFrom, Level;
    ghost var f, nil, strings := doc.forest, doc.nil, doc.stringPool.strings;
    CollectionHasList(f, nil, p);
    PlaceIsShallow(f, nil, p);
    var d := doc.DataOf(p);
    if !d.IsCollection() {
      NotNested(f, nil, strings, p);
      return 0;
    }
    var maxChildNesting := 0;
    ListIsHere(f, nil, p);
    var id := d.head;
    ghost var k := 0;
    while id != doc.nil
      invariant k <= |f.lists[p]| && id == Link(f.lists[p], k, nil)
      invariant Max(maxChildNesting, NestingFrom(f, nil, strings, p, k)) == NestingFrom(f, nil, strings, p, 0)
      decreases |f.lists[p]| - k
    {
      LinkSlot(f, nil, p, k);
      ChildIsDeeper(f, nil, p, k);
      var childNesting := NestingOf(doc, In(id));
      NestingGoesOn(f, nil, strings, p, k);
      if childNesting > maxChildNesting {
        maxChildNesting := childNesting;
      }
      var slot := doc.variantPools.GetSlot(id);
      id := slot.next;
      k := k + 1;
    }
    LinkIsNoNil(f, nil, p, k);
    NestingEnds(f, nil, strings, p);
    n := maxChildNesting + 1;
  }
}

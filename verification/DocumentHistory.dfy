/** Histories of operations on a document, and the same on plain values. */
module DocumentHistories {
  import opened Bytes
  import opened Options
  import opened Document
  import opened Slots
  import opened StringPools
  import opened VariantPools
  import opened Forests
  import opened Releases
  import opened OwnerCounts
  import opened JsonDocuments
  import opened DocumentViews
  import opened DocumentPaths

  /** An operation on the value at a path. */
  datatype Op =
    | AddElement(path: Path)
    | GetOrAddElement(path: Path, index: nat)
    | RemoveElement(path: Path, index: nat)
    | AddMember(path: Path, key: bytes)
    | Clear(path: Path)
    | SetString(path: Path, text: bytes)
    | MakeCollection(path: Path, isArray: bool)
    | SetNull(path: Path)

  /** How many slots or strings an operation has to get. */
  function Needs(u: Value, op: Op): nat {
    match op
    case AddElement(_) => if u.Arr? then 1 else 0
    case GetOrAddElement(_, index) => if u.Arr? && index >= |u.elems| then index + 1 - |u.elems| else 0
    case AddMember(_, _) => if u.Obj? then 1 else 0
    case SetString(_, _) => 1
    case _ => 0
  }

  /** The value after an operation that got so many of them. */
  function Changed(u: Value, op: Op, got: nat): Value {
    match op
    case AddElement(_) => if u.Arr? then WithNulls(u, got) else u
    case GetOrAddElement(_, _) => if u.Arr? then WithNulls(u, got) else u
    case RemoveElement(_, index) => if index < ChildCount(u) then WithoutChild(u, index) else u
    case AddMember(_, key) => if u.Obj? && got > 0 then WithMember(u, Member(key, Null)) else u
    case Clear(_) => if u.Arr? then Arr([]) else if u.Obj? then Obj([]) else u
    case SetString(_, text) => if got > 0 then Str(text) else Null
    case MakeCollection(_, isArray) => if isArray then Arr([]) else Obj([])
    case SetNull(_) => Null
  }

  function Apply(v: Value, op: Op, got: nat): Value {
    match Get(v, op.path)
    case None => v
    case Some(u) => Put(v, op.path, Changed(u, op, got))
  }

  function NeedsIn(v: Value, op: Op): nat {
    match Get(v, op.path)
    case None => 0
    case Some(u) => Needs(u, op)
  }

  /** All operations, one after another, from a null document on. */
  function Outcome(ops: seq<Op>, gots: seq<nat>): Value
    requires |gots| == |ops|
    decreases |ops|
  {
    if ops == [] then Null
    else
      var n := |ops| - 1;
      Apply(Outcome(ops[..n], gots[..n]), ops[n], gots[n])
  }

  /** Every operation got what it needed, or at most that. */
  predicate Enough(ops: seq<Op>, gots: seq<nat>, all: bool)
    requires |gots| == |ops|
    decreases |ops|
  {
    ops == [] ||
      var n := |ops| - 1;
      var needs := NeedsIn(Outcome(ops[..n], gots[..n]), ops[n]);
      Enough(ops[..n], gots[..n], all) && (if all then gots[n] == needs else gots[n] <= needs)
  }

  /** The value of a document. */
  ghost function Held(doc: JsonDocument): Value
    reads doc, doc.variantPools, doc.stringPool
  {
    if doc.Valid() then ValueAt(doc.forest, doc.nil, doc.stringPool.strings, Nowhere, Root) else Null
  }

  /** A path leads to a place by its first part. */
  lemma {:induction false} NoWayOn(f: Forest, path: Path, i: nat)
    requires i <= |path| && PlaceAt(f, path[..i]).None?
    ensures PlaceAt(f, path).None?
    decreases |path| - i
  {
    if i == |path| {
      assert path[..i] == path;
    } else {
      assert path[..i + 1][..i] == path[..i];
      NoWayOn(f, path, i + 1);
    }
  }

  lemma LinkLeadsOn(f: Forest, nil: SlotId, p: Place, k: nat)
    requires Forests.Valid(f, nil) && p in f.lists
    ensures Link(f.lists[p], k, nil) != nil <==> k < |f.lists[p]|
    ensures k < |f.lists[p]| ==> Link(f.lists[p], k, nil) == f.lists[p][k]
  {
    LinkIsNoNil(f, nil, p, k);
  }

  /** The place at a path, slot by slot. */
  method Locate(doc: JsonDocument, path: Path) returns (p: Option<Place>)
    requires doc.Whole()
    ensures p == PlaceAt(doc.forest, path)
    ensures p.Some? ==> HasPlace(doc.forest, p.value)
  {
    hide Forests.Valid, OwnersCount, Consistent, Distinct;
    ghost var f := doc.forest;
    var q := Root;
    var i := 0;
    while i < |path|
      invariant i <= |path| && HasPlace(f, q) && PlaceAt(f, path[..i]) == Some(q)
    {
      CollectionHasList(f, doc.nil, q);
      assert path[..i + 1][..i] == path[..i];
      var d := doc.DataOf(q);
      if !d.IsCollection() {
        NoWayOn(f, path, i + 1);
        return None;
      }
      var id := doc.At(q, path[i]);
      LinkLeadsOn(f, doc.nil, q, path[i]);
      if id == doc.nil {
        NoWayOn(f, path, i + 1);
        return None;
      }
      ChildIsDeeper(f, doc.nil, q, path[i]);
      q := In(id);
      i := i + 1;
    }
    assert path[..i] == path;
    p := Some(q);
  }

  /** What an operation does to the value at its path, it does to the document. */
  lemma IsApplied(f: Forest, g: Forest, nil: SlotId, before: seq<StringNode>, after: seq<StringNode>, op: Op, got: nat)
    requires Forests.Valid(f, nil) && Forests.Valid(g, nil) && PlaceAt(f, op.path).Some?
    requires var p := PlaceAt(f, op.path).value;
             && HasPlace(f, p) && HasPlace(g, p)
             && ValueAt(g, nil, after, Nowhere, p) == Changed(ValueAt(f, nil, before, Nowhere, p), op, got)
             && ValueAt(g, nil, after, Nowhere, Root)
                == ValueAt(f, nil, before, Hole(p, ValueAt(g, nil, after, Nowhere, p)), Root)
    ensures ValueAt(g, nil, after, Nowhere, Root) == Apply(ValueAt(f, nil, before, Nowhere, Root), op, got)
  {
    hide Forests.Valid, ValueAt, Changed;
    HoleIsPut(f, nil, before, op.path, ValueAt(g, nil, after, Nowhere, PlaceAt(f, op.path).value));
  }

  /** An operation that does nothing to the value, or finds none. */
  lemma NothingApplied(f: Forest, nil: SlotId, strings: seq<StringNode>, op: Op, got: nat)
    requires Forests.Valid(f, nil)
    requires PlaceAt(f, op.path).Some? ==>
               var p := PlaceAt(f, op.path).value;
               HasPlace(f, p) && var u := ValueAt(f, nil, strings, Nowhere, p); Changed(u, op, got) == u
    ensures var v := ValueAt(f, nil, strings, Nowhere, Root); Apply(v, op, got) == v
  {
    hide Forests.Valid, ValueAt, Changed;
    if PlaceAt(f, op.path).Some? {
      HoleIsPut(f, nil, strings, op.path, Null);
      PutAndGet(ValueAt(f, nil, strings, Nowhere, Root), op.path, Null);
    } else {
      NoPlaceNoValue(f, nil, strings, op.path);
    }
  }

  /** The operation got what it needed, or the document is marked. */
  ghost predicate Did(before: Value, after: Value, op: Op, got: nat, overflowed: bool) {
    after == Apply(before, op, got) && got <= NeedsIn(before, op) && (overflowed || got == NeedsIn(before, op))
  }

  // One operation each.

  method DoAddElement(doc: JsonDocument, op: Op, growOk: bool, poolOk: bool) returns (ghost got: nat)
    requires doc.Whole() && op.AddElement?
    modifies doc, doc.variantPools, doc.stringPool
    ensures doc.Whole() && (old(doc.overflowed) ==> doc.overflowed) && (doc.overflowed || doc.strays == old(doc.strays))
    ensures Did(old(Held(doc)), Held(doc), op, got, doc.overflowed)
  {
    hide Forests.Valid, OwnersCount, Consistent, Distinct, ValueAt, Apply, Grown;
    ghost var f, strings := doc.forest, doc.stringPool.strings;
    var p := Locate(doc, op.path);
    NeedsThere(f, doc.nil, strings, op, p);
    if p == None {
      NothingApplied(f, doc.nil, strings, op, 0);
      return 0;
    }
    var d := doc.DataOf(p.value);
    SizeIs(f, doc.nil, strings, p.value);
    CollectionHasList(f, doc.nil, p.value);
    if !d.Array? {
      NothingApplied(f, doc.nil, strings, op, 0);
      return 0;
    }
    var id := doc.AddSlot(p.value, growOk, poolOk);
    if id == doc.nil {
      NoNullsAdded(ValueAt(f, doc.nil, strings, Nowhere, p.value));
      NothingApplied(f, doc.nil, strings, op, 0);
      got := 0;
    } else {
      SlotsAreNulls(f, doc.forest, doc.nil, strings, p.value, [id]);
      IsApplied(f, doc.forest, doc.nil, strings, strings, op, 1);
      got := 1;
    }
  }

  lemma NoNullsAdded(u: Value)
    ensures WithNulls(u, 0) == u
  {
    if u.Arr? {
      assert u.elems + seq(0, _ => Null) == u.elems;
    } else if u.Obj? {
      assert u.members + Nameless(0) == u.members;
    }
  }

  /** What an operation needs depends on the value at its place. */
  lemma NeedsThere(f: Forest, nil: SlotId, strings: seq<StringNode>, op: Op, p: Option<Place>)
    requires Forests.Valid(f, nil) && p == PlaceAt(f, op.path)
    ensures NeedsIn(ValueAt(f, nil, strings, Nowhere, Root), op)
            == if p == None then 0
               else (PlaceIsThere(f, nil, op.path); Needs(ValueAt(f, nil, strings, Nowhere, p.value), op))
  {
    hide Forests.Valid, ValueAt, Needs;
    if p == None {
      NoPlaceNoValue(f, nil, strings, op.path);
    } else {
      HoleIsPut(f, nil, strings, op.path, Null);
    }
  }

  method DoGetOrAddElement(doc: JsonDocument, op: Op, memory: nat -> (bool, bool)) returns (ghost got: nat)
    requires doc.Whole() && op.GetOrAddElement?
    modifies doc, doc.variantPools, doc.stringPool
    ensures doc.Whole() && (old(doc.overflowed) ==> doc.overflowed) && (doc.overflowed || doc.strays == old(doc.strays))
    ensures Did(old(Held(doc)), Held(doc), op, got, doc.overflowed)
  {
    hide Forests.Valid, OwnersCount, Consistent, Distinct, ValueAt, Apply, Grown;
    ghost var f, strings := doc.forest, doc.stringPool.strings;
    var p := Locate(doc, op.path);
    NeedsThere(f, doc.nil, strings, op, p);
    if p == None {
      NothingApplied(f, doc.nil, strings, op, 0);
      return 0;
    }
    var d := doc.DataOf(p.value);
    SizeIs(f, doc.nil, strings, p.value);
    CollectionHasList(f, doc.nil, p.value);
    if !d.Array? {
      NothingApplied(f, doc.nil, strings, op, 0);
      return 0;
    }
    var id;
    ghost var ids;
    id, ids := doc.GetOrAddElement(p.value, op.index, memory);
    if |ids| == 0 {
      NoNullsAdded(ValueAt(f, doc.nil, strings, Nowhere, p.value));
      NothingApplied(f, doc.nil, strings, op, 0);
    } else {
      SlotsAreNulls(f, doc.forest, doc.nil, strings, p.value, ids);
      IsApplied(f, doc.forest, doc.nil, strings, strings, op, |ids|);
    }
    got := |ids|;
  }

  method DoRemoveElement(doc: JsonDocument, op: Op) returns (ghost got: nat)
    requires doc.Whole() && op.RemoveElement?
    modifies doc, doc.variantPools, doc.stringPool
    ensures doc.Whole() && (old(doc.overflowed) ==> doc.overflowed) && (doc.overflowed || doc.strays == old(doc.strays))
    ensures Did(old(Held(doc)), Held(doc), op, got, doc.overflowed)
  {
    hide Forests.Valid, OwnersCount, Consistent, Distinct, ValueAt, Apply, Shortened, TextsStay;
    ghost var f, strings := doc.forest, doc.stringPool.strings;
    var p := Locate(doc, op.path);
    NeedsThere(f, doc.nil, strings, op, p);
    if p == None {
      NothingApplied(f, doc.nil, strings, op, 0);
      return 0;
    }
    var d := doc.DataOf(p.value);
    SizeIs(f, doc.nil, strings, p.value);
    CollectionHasList(f, doc.nil, p.value);
    got := 0;
    if !d.IsCollection() {
      NothingApplied(f, doc.nil, strings, op, 0);
      return;
    }
    ghost var F := doc.RemoveElement(p.value, op.index);
    if op.index >= |f.lists[p.value]| {
      NothingApplied(f, doc.nil, strings, op, 0);
      SameValue(f, doc.nil, strings, doc.stringPool.strings);
    } else {
      SlotIsTakenOut(f, doc.forest, doc.nil, strings, doc.stringPool.strings, p.value, op.index, F);
      IsApplied(f, doc.forest, doc.nil, strings, doc.stringPool.strings, op, 0);
    }
  }

  method DoAddMember(doc: JsonDocument, op: Op, ok: bool, growOk: bool, poolOk: bool) returns (ghost got: nat)
    requires doc.Whole() && op.AddMember?
    modifies doc, doc.variantPools, doc.stringPool
    ensures doc.Whole() && (old(doc.overflowed) ==> doc.overflowed) && (doc.overflowed || doc.strays == old(doc.strays))
    ensures Did(old(Held(doc)), Held(doc), op, got, doc.overflowed)
  {
    hide Forests.Valid, OwnersCount, Consistent, Distinct, ValueAt, Apply, Named, TextsStay;
    ghost var f, strings := doc.forest, doc.stringPool.strings;
    var p := Locate(doc, op.path);
    NeedsThere(f, doc.nil, strings, op, p);
    if p == None {
      NothingApplied(f, doc.nil, strings, op, 0);
      return 0;
    }
    var d := doc.DataOf(p.value);
    SizeIs(f, doc.nil, strings, p.value);
    CollectionHasList(f, doc.nil, p.value);
    if !d.Object? {
      NothingApplied(f, doc.nil, strings, op, 0);
      return 0;
    }
    var id := doc.AddMember(p.value, op.key, ok, growOk, poolOk);
    if id == doc.nil {
      SameValue(f, doc.nil, strings, doc.stringPool.strings);
      NothingApplied(f, doc.nil, strings, op, 0);
      got := 0;
    } else {
      MemberIsNull(f, doc.forest, doc.nil, strings, doc.stringPool.strings, p.value, id, op.key);
      IsApplied(f, doc.forest, doc.nil, strings, doc.stringPool.strings, op, 1);
      got := 1;
    }
  }

  method DoClear(doc: JsonDocument, op: Op) returns (ghost got: nat)
    requires doc.Whole() && op.Clear?
    modifies doc, doc.variantPools, doc.stringPool
    ensures doc.Whole() && (old(doc.overflowed) ==> doc.overflowed) && (doc.overflowed || doc.strays == old(doc.strays))
    ensures Did(old(Held(doc)), Held(doc), op, got, doc.overflowed)
  {
    hide Forests.Valid, OwnersCount, Consistent, Distinct, ValueAt, Apply, Cleared, Closure, SetOf, TextsStay, Reduced,
        OpenAbove;
    ghost var f, strings := doc.forest, doc.stringPool.strings;
    var p := Locate(doc, op.path);
    NeedsThere(f, doc.nil, strings, op, p);
    if p == None {
      NothingApplied(f, doc.nil, strings, op, 0);
      return 0;
    }
    var d := doc.DataOf(p.value);
    SizeIs(f, doc.nil, strings, p.value);
    CollectionHasList(f, doc.nil, p.value);
    got := 0;
    if !d.IsCollection() {
      NothingApplied(f, doc.nil, strings, op, 0);
      return;
    }
    NothingOpen(f, p.value);
    ghost var F := doc.Clear(p.value);
    ClearedIsWhole(f, doc.nil, p.value, F);
    OwnedTextsStay(strings, doc.stringPool.strings, doc.forest.h, doc.forest.root, doc.strays);
    ValueIsCleared(f, doc.nil, strings, doc.stringPool.strings, p.value, F);
    IsApplied(f, doc.forest, doc.nil, strings, doc.stringPool.strings, op, 0);
  }

  method DoSetString(doc: JsonDocument, op: Op, ok: bool) returns (ghost got: nat)
    requires doc.Whole() && op.SetString?
    modifies doc, doc.variantPools, doc.stringPool
    ensures doc.Whole() && (old(doc.overflowed) ==> doc.overflowed) && (doc.overflowed || doc.strays == old(doc.strays))
    ensures Did(old(Held(doc)), Held(doc), op, got, doc.overflowed)
  {
    hide Forests.Valid, OwnersCount, Consistent, Distinct, ValueAt, Apply, Nullified, Replaced, TextsStay;
    ghost var f, strings := doc.forest, doc.stringPool.strings;
    var p := Locate(doc, op.path);
    NeedsThere(f, doc.nil, strings, op, p);
    if p == None {
      NothingApplied(f, doc.nil, strings, op, 0);
      return 0;
    }
    var node;
    ghost var F, e;
    node, F, e := doc.SetString(p.value, op.text, ok);
    if node == None {
      got := 0;
      NullifiedAgain(f, e, doc.nil, p.value, F);
      ValueIsReplaced(f, e, doc.nil, strings, doc.stringPool.strings, p.value, F, Nothing());
    } else {
      got := 1;
      ValueIsReplaced(f, e, doc.nil, strings, doc.stringPool.strings, p.value, F, OwnedString(node.value));
    }
    IsApplied(f, doc.forest, doc.nil, strings, doc.stringPool.strings, op, got);
  }

  method DoMakeCollection(doc: JsonDocument, op: Op) returns (ghost got: nat)
    requires doc.Whole() && op.MakeCollection?
    modifies doc, doc.variantPools, doc.stringPool
    ensures doc.Whole() && (old(doc.overflowed) ==> doc.overflowed) && (doc.overflowed || doc.strays == old(doc.strays))
    ensures Did(old(Held(doc)), Held(doc), op, got, doc.overflowed)
  {
    hide Forests.Valid, OwnersCount, Consistent, Distinct, ValueAt, Apply, Nullified, Replaced, TextsStay;
    ghost var f, strings := doc.forest, doc.stringPool.strings;
    var p := Locate(doc, op.path);
    NeedsThere(f, doc.nil, strings, op, p);
    if p == None {
      NothingApplied(f, doc.nil, strings, op, 0);
      return 0;
    }
    ghost var F, e := doc.MakeCollection(p.value, op.isArray);
    got := 0;
    ValueIsReplaced(f, e, doc.nil, strings, doc.stringPool.strings, p.value, F,
                    if op.isArray then Array(doc.nil, doc.nil) else Object(doc.nil, doc.nil));
    IsApplied(f, doc.forest, doc.nil, strings, doc.stringPool.strings, op, 0);
  }

  method DoSetNull(doc: JsonDocument, op: Op) returns (ghost got: nat)
    requires doc.Whole() && op.SetNull?
    modifies doc, doc.variantPools, doc.stringPool
    ensures doc.Whole() && (old(doc.overflowed) ==> doc.overflowed) && (doc.overflowed || doc.strays == old(doc.strays))
    ensures Did(old(Held(doc)), Held(doc), op, got, doc.overflowed)
  {
    hide Forests.Valid, OwnersCount, Consistent, Distinct, ValueAt, Apply, Nullified, Replaced, TextsStay, Reduced,
        OpenAbove;
    ghost var f, strings := doc.forest, doc.stringPool.strings;
    var p := Locate(doc, op.path);
    NeedsThere(f, doc.nil, strings, op, p);
    if p == None {
      NothingApplied(f, doc.nil, strings, op, 0);
      return 0;
    }
    NothingOpen(f, p.value);
    ghost var F := doc.SetNull(p.value);
    got := 0;
    NullifiedIsEmpty(f, doc.forest, doc.nil, p.value, F);
    NullifiedAgain(f, doc.forest, doc.nil, p.value, F);
    OwnedTextsStay(strings, doc.stringPool.strings, doc.forest.h, doc.forest.root, doc.strays);
    ValueIsReplaced(f, doc.forest, doc.nil, strings, doc.stringPool.strings, p.value, F, Nothing());
    IsApplied(f, doc.forest, doc.nil, strings, doc.stringPool.strings, op, 0);
  }

  lemma ClearedIsWhole(f: Forest, nil: SlotId, p: Place, F: set<SlotId>)
    requires p in f.lists && (p.In? ==> p.id in f.h && p.id !in F) && DataAt(f, p).IsCollection()
    requires f.out == {} && f.open == {}
    ensures Cleared(f, nil, p, F).out == {} && Cleared(f, nil, p, F).open == {}
  {
  }

  /** A null made null is the same. */
  lemma NullifiedAgain(f: Forest, e: Forest, nil: SlotId, p: Place, F: set<SlotId>)
    requires HasPlace(f, p) && Nullified(f, e, nil, p, F) && HasPlace(e, p)
    ensures Replaced(e, p, Nothing()) == e
  {
    hide Closure, Cleared;
    assert DataAt(e, p) == Nothing() && p !in e.lists;
    assert e.lists - {p} == e.lists;
    WithSameData(e, p);
  }

  lemma WithSameData(e: Forest, p: Place)
    requires HasPlace(e, p)
    ensures WithData(e, p, DataAt(e, p)) == e
  {
    if p.In? {
      assert e.h[p.id := e.h[p.id].(data := e.h[p.id].data)] == e.h;
    }
  }

  /** The same slots, and strings that stay: the same document. */
  lemma SameValue(f: Forest, nil: SlotId, before: seq<StringNode>, after: seq<StringNode>)
    requires Forests.Valid(f, nil) && TextsStay(before, after, f.h, f.root)
    ensures ValueAt(f, nil, after, Nowhere, Root) == ValueAt(f, nil, before, Nowhere, Root)
  {
    SameElsewhere(f, before, after);
    CollectionHasList(f, nil, Root);
    OwnedReadsTheSame(f, before, after, Root);
    hide Forests.Valid, TextsStay, Elsewhere, TextAt, Level;
    if Root in f.lists {
      SameChildren(f, nil, before, after);
    }
  }

  lemma SameChildren(f: Forest, nil: SlotId, before: seq<StringNode>, after: seq<StringNode>)
    requires Forests.Valid(f, nil) && Elsewhere(f, f, before, after, Root) && Root in f.lists
    ensures Children(f, nil, after, Nowhere, Root) == Children(f, nil, before, Nowhere, Root)
  {
    hide Forests.Valid, Elsewhere, Level, ChildOf;
    forall k | 0 <= k < |f.lists[Root]|
      ensures ChildOf(f, nil, after, Nowhere, Root, k) == ChildOf(f, nil, before, Nowhere, Root, k)
    {
      ChildStays(f, f, nil, before, after, Root, k, k);
    }
  }

  lemma SameElsewhere(f: Forest, before: seq<StringNode>, after: seq<StringNode>)
    requires TextsStay(before, after, f.h, f.root)
    ensures Elsewhere(f, f, before, after, Root)
  {
    hide TextsStay;
    forall q | HasPlace(f, q)
      ensures DataAt(f, q).OwnedString? ==> TextAt(after, DataAt(f, q).node) == TextAt(before, DataAt(f, q).node)
    {
      OwnedReadsTheSame(f, before, after, q);
    }
    forall x | x in f.h ensures KeyText(after, f.h[x].key) == KeyText(before, f.h[x].key) {
      KeyReadsTheSame(f, before, after, x);
    }
  }

  // Histories.

  /** What memory answers to one operation: for its string, and for its slots. */
  datatype Memory = Memory(ok: bool, slots: nat -> (bool, bool))

  method Do(doc: JsonDocument, op: Op, memory: Memory) returns (ghost got: nat)
    requires doc.Whole()
    modifies doc, doc.variantPools, doc.stringPool
    ensures doc.Whole() && (old(doc.overflowed) ==> doc.overflowed) && (doc.overflowed || doc.strays == old(doc.strays))
    ensures Did(old(Held(doc)), Held(doc), op, got, doc.overflowed)
  {
    hide Forests.Valid, OwnersCount, Consistent, Distinct, ValueAt, Did;
    var slot := memory.slots(0);
    match op {
      case AddElement(_) => got := DoAddElement(doc, op, slot.0, slot.1);
      case GetOrAddElement(_, _) => got := DoGetOrAddElement(doc, op, memory.slots);
      case RemoveElement(_, _) => got := DoRemoveElement(doc, op);
      case AddMember(_, _) => got := DoAddMember(doc, op, memory.ok, slot.0, slot.1);
      case Clear(_) => got := DoClear(doc, op);
      case SetString(_, _) => got := DoSetString(doc, op, memory.ok);
      case MakeCollection(_, _) => got := DoMakeCollection(doc, op);
      case SetNull(_) => got := DoSetNull(doc, op);
    }
  }

  /** Any history of operations, from the constructor on: the document holds what
      they make of plain values, each with as much as it got; and each got all it
      needed, and no reference is left over, unless the document is marked. */
  method DoAll(config: Config, ops: seq<Op>, memory: nat -> Memory) returns (doc: JsonDocument, ghost gots: seq<nat>)
    requires config.Good()
    ensures fresh(doc) && doc.Whole()
    ensures |gots| == |ops| && Held(doc) == Outcome(ops, gots)
    ensures Enough(ops, gots, false) && (!doc.overflowed ==> Enough(ops, gots, true) && doc.strays == multiset{})
  {
    hide Forests.Valid, OwnersCount, Consistent, Distinct, ValueAt;
    doc := new JsonDocument(config);
    gots := [];
    NewIsNull(doc.forest, doc.nil, doc.stringPool.strings);
    var i := 0;
    while i < |ops|
      invariant fresh(doc) && fresh(doc.variantPools) && fresh(doc.stringPool) && doc.Whole()
      invariant i <= |ops| && |gots| == i && Held(doc) == Outcome(ops[..i], gots)
      invariant Enough(ops[..i], gots, false) && (!doc.overflowed ==> Enough(ops[..i], gots, true)
                                                                      && doc.strays == multiset{})
    {
      ghost var got := Do(doc, ops[i], memory(i));
      assert ops[..i + 1][..i] == ops[..i] && (gots + [got])[..i] == gots;
      gots := gots + [got];
      i := i + 1;
    }
    assert ops[..i] == ops;
  }

  lemma NewIsNull(f: Forest, nil: SlotId, strings: seq<StringNode>)
    requires Forests.Valid(f, nil) && f.root == Nothing()
    ensures ValueAt(f, nil, strings, Nowhere, Root) == Null
  {
  }
}

/** Values by their path in a document, and the places that hold them. */
module DocumentPaths {
  import opened Bytes
  import opened Options
  import opened Document
  import opened Slots
  import opened StringPools
  import opened VariantPools
  import opened Forests
  import opened Releases
  import opened OwnerCounts
  import opened JsonDocuments
  import opened DocumentViews

  // Paths into plain values.

  /** Which elements or members lead to a value. */
  type Path = seq<nat>

  function Child(v: Value, k: nat): Value
    requires k < ChildCount(v)
  {
    if v.Arr? then v.elems[k] else v.members[k].value
  }

  function PutChild(v: Value, k: nat, w: Value): Value
    requires k < ChildCount(v)
  {
    if v.Arr? then Arr(v.elems[k := w]) else Obj(v.members[k := v.members[k].(value := w)])
  }

  function Get(v: Value, path: Path): Option<Value>
    decreases |path|
  {
    if path == [] then Some(v)
    else
      var k := path[|path| - 1];
      match Get(v, path[..|path| - 1])
      case None => None
      case Some(u) => if k < ChildCount(u) then Some(Child(u, k)) else None
  }

  /** The document with another value at the path. */
  function Put(v: Value, path: Path, w: Value): Value
    decreases |path|
  {
    if path == [] then w
    else
      var k, above := path[|path| - 1], path[..|path| - 1];
      match Get(v, above)
      case None => v
      case Some(u) => if k < ChildCount(u) then Put(v, above, PutChild(u, k, w)) else v
  }

  /** What is put is there, and putting back what was there changes nothing. */
  lemma {:induction false} PutAndGet(v: Value, path: Path, w: Value)
    requires Get(v, path).Some?
    ensures Get(Put(v, path, w), path) == Some(w)
    ensures Put(v, path, Get(v, path).value) == v
    decreases |path|
  {
    if path == [] {
    } else {
      var k, above := path[|path| - 1], path[..|path| - 1];
      var u := Get(v, above).value;
      PutAndGet(v, above, PutChild(u, k, w));
      assert PutChild(u, k, Child(u, k)) == u;
    }
  }

  // Paths into the slots.

  /** The place that a path leads to. */
  ghost function PlaceAt(f: Forest, path: Path): (p: Option<Place>)
    decreases |path|
  {
    if path == [] then Some(Root)
    else
      var k := path[|path| - 1];
      match PlaceAt(f, path[..|path| - 1])
      case None => None
      case Some(q) => if q in f.lists && k < |f.lists[q]| then Some(In(f.lists[q][k])) else None
  }

  lemma {:induction false} PlaceIsThere(f: Forest, nil: SlotId, path: Path)
    requires Forests.Valid(f, nil) && PlaceAt(f, path).Some?
    ensures HasPlace(f, PlaceAt(f, path).value)
  {
    hide Forests.Valid;
    if path != [] {
      ChildIsDeeper(f, nil, PlaceAt(f, path[..|path| - 1]).value, path[|path| - 1]);
    }
  }

  /** Nothing below another child of q sees what is at p. */
  lemma {:induction false} Untouched(f: Forest, nil: SlotId, strings: seq<StringNode>, q: Place, k: nat, w: Value,
                                     y: Place)
    requires Forests.Valid(f, nil) && q in f.lists && k < |f.lists[q]| && HasPlace(f, y) && HasPlace(f, q)
    requires Level(f, y) > Level(f, q) && y != In(f.lists[q][k])
    ensures ValueAt(f, nil, strings, Hole(In(f.lists[q][k]), w), y) == ValueAt(f, nil, strings, Nowhere, y)
    decreases f.limit + 1 - Level(f, y), 1
  {
    hide Forests.Valid, Children, Values, TextAt, Level;
    CollectionHasList(f, nil, y);
    PlaceIsShallow(f, nil, y);
    if y in f.lists {
      AllUntouched(f, nil, strings, q, k, w, y);
    }
  }

  lemma {:induction false} AllUntouched(f: Forest, nil: SlotId, strings: seq<StringNode>, q: Place, k: nat, w: Value,
                                        y: Place)
    requires Forests.Valid(f, nil) && q in f.lists && k < |f.lists[q]| && y in f.lists && HasPlace(f, y)
             && HasPlace(f, q)
    requires Level(f, y) > Level(f, q)
    ensures Children(f, nil, strings, Hole(In(f.lists[q][k]), w), y) == Children(f, nil, strings, Nowhere, y)
    decreases f.limit + 1 - Level(f, y), 0
  {
    hide Forests.Valid, ValueAt, KeyText, Level;
    PlaceIsShallow(f, nil, y);
    ChildIsDeeper(f, nil, q, k);
    forall j | 0 <= j < |f.lists[y]|
      ensures ChildOf(f, nil, strings, Hole(In(f.lists[q][k]), w), y, j) == ChildOf(f, nil, strings, Nowhere, y, j)
    {
      ChildIsDeeper(f, nil, y, j);
      Untouched(f, nil, strings, q, k, w, In(f.lists[y][j]));
    }
  }

  /** A collection with another value at its child number k. */
  lemma ChildIsPut(f: Forest, nil: SlotId, strings: seq<StringNode>, q: Place, k: nat, w: Value)
    requires Forests.Valid(f, nil) && q in f.lists && k < |f.lists[q]| && HasPlace(f, q)
    ensures k < ChildCount(ValueAt(f, nil, strings, Nowhere, q))
    ensures ValueAt(f, nil, strings, Hole(In(f.lists[q][k]), w), q)
            == PutChild(ValueAt(f, nil, strings, Nowhere, q), k, w)
    ensures Child(ValueAt(f, nil, strings, Nowhere, q), k) == ValueAt(f, nil, strings, Nowhere, In(f.lists[q][k]))
  {
    var p := In(f.lists[q][k]);
    ChildIsDeeper(f, nil, q, k);
    CollectionHasList(f, nil, q);
    OneChildIsPut(f, nil, strings, q, k, w);
    CollectionIs(f, nil, strings, q);
    var ms := Children(f, nil, strings, Nowhere, q);
    hide Forests.Valid, Children, Level;
    assert ms[k].value == ValueAt(f, nil, strings, Nowhere, p);
    assert Values(ms[k := ms[k].(value := w)]) == Values(ms)[k := w];
    assert q != p;
  }

  lemma OneChildIsPut(f: Forest, nil: SlotId, strings: seq<StringNode>, q: Place, k: nat, w: Value)
    requires Forests.Valid(f, nil) && q in f.lists && k < |f.lists[q]| && HasPlace(f, q)
    ensures var ms := Children(f, nil, strings, Nowhere, q);
            && HasPlace(f, In(f.lists[q][k]))
            && ms[k].value == ValueAt(f, nil, strings, Nowhere, In(f.lists[q][k]))
            && Children(f, nil, strings, Hole(In(f.lists[q][k]), w), q) == ms[k := ms[k].(value := w)]
  {
    var p := In(f.lists[q][k]);
    NoRepeatsInList(f, q);
    ChildAtHole(f, nil, strings, q, k, w);
    hide Forests.Valid, KeyText, Level, ValueAt, ChildOf;
    forall j | 0 <= j < |f.lists[q]| && j != k
      ensures ChildOf(f, nil, strings, Hole(p, w), q, j) == ChildOf(f, nil, strings, Nowhere, q, j)
    {
      OtherChild(f, nil, strings, q, k, w, j);
    }
  }

  lemma ChildAtHole(f: Forest, nil: SlotId, strings: seq<StringNode>, q: Place, k: nat, w: Value)
    requires Forests.Valid(f, nil) && q in f.lists && k < |f.lists[q]|
    ensures HasPlace(f, In(f.lists[q][k]))
    ensures var m := ChildOf(f, nil, strings, Nowhere, q, k);
            && m.value == ValueAt(f, nil, strings, Nowhere, In(f.lists[q][k]))
            && ChildOf(f, nil, strings, Hole(In(f.lists[q][k]), w), q, k) == m.(value := w)
  {
    ChildIsDeeper(f, nil, q, k);
    hide Forests.Valid, KeyText, Level;
  }

  lemma OtherChild(f: Forest, nil: SlotId, strings: seq<StringNode>, q: Place, k: nat, w: Value, j: nat)
    requires Forests.Valid(f, nil) && q in f.lists && k < |f.lists[q]| && j < |f.lists[q]|
             && f.lists[q][j] != f.lists[q][k]
    ensures ChildOf(f, nil, strings, Hole(In(f.lists[q][k]), w), q, j) == ChildOf(f, nil, strings, Nowhere, q, j)
  {
    hide Forests.Valid, KeyText, Level, ValueAt;
    ChildIsDeeper(f, nil, q, j);
    Untouched(f, nil, strings, q, k, w, In(f.lists[q][j]));
  }

  /** A hole at a child is one at its collection. */
  lemma {:induction false} HoleMoves(f: Forest, nil: SlotId, strings: seq<StringNode>, q: Place, k: nat, w: Value,
                                     x: Place)
    requires Forests.Valid(f, nil) && q in f.lists && k < |f.lists[q]| && HasPlace(f, q) && HasPlace(f, x)
    requires k < ChildCount(ValueAt(f, nil, strings, Nowhere, q)) && x != In(f.lists[q][k])
    ensures ValueAt(f, nil, strings, Hole(In(f.lists[q][k]), w), x)
            == ValueAt(f, nil, strings, Hole(q, PutChild(ValueAt(f, nil, strings, Nowhere, q), k, w)), x)
    decreases f.limit + 1 - Level(f, x), 1
  {
    hide Forests.Valid, Level;
    CollectionHasList(f, nil, x);
    PlaceIsShallow(f, nil, x);
    if x == q {
      ChildIsPut(f, nil, strings, q, k, w);
    } else {
      hide Forests.Valid, Children, Values, TextAt, Level, PutChild;
      if x in f.lists {
        HolesMove(f, nil, strings, q, k, w, x);
      }
    }
  }

  lemma {:induction false} HolesMove(f: Forest, nil: SlotId, strings: seq<StringNode>, q: Place, k: nat, w: Value,
                                     x: Place)
    requires Forests.Valid(f, nil) && q in f.lists && k < |f.lists[q]| && HasPlace(f, q) && HasPlace(f, x)
    requires k < ChildCount(ValueAt(f, nil, strings, Nowhere, q)) && x != q && x in f.lists
    ensures Children(f, nil, strings, Hole(In(f.lists[q][k]), w), x)
            == Children(f, nil, strings, Hole(q, PutChild(ValueAt(f, nil, strings, Nowhere, q), k, w)), x)
    decreases f.limit + 1 - Level(f, x), 0
  {
    hide Forests.Valid, ValueAt, KeyText, Level, PutChild, ChildCount;
    PlaceIsShallow(f, nil, x);
    ChildIsDeeper(f, nil, q, k);
    var w2 := PutChild(ValueAt(f, nil, strings, Nowhere, q), k, w);
    forall j | 0 <= j < |f.lists[x]|
      ensures ChildOf(f, nil, strings, Hole(In(f.lists[q][k]), w), x, j) == ChildOf(f, nil, strings, Hole(q, w2), x, j)
    {
      ChildIsDeeper(f, nil, x, j);
      HoleMoves(f, nil, strings, q, k, w, In(f.lists[x][j]));
    }
  }

  /** The place at a path holds the value at the path, and a document with a hole
      there is the document with that value put. */
  lemma {:induction false} HoleIsPut(f: Forest, nil: SlotId, strings: seq<StringNode>, path: Path, w: Value)
    requires Forests.Valid(f, nil) && PlaceAt(f, path).Some?
    ensures var p, v := PlaceAt(f, path).value, ValueAt(f, nil, strings, Nowhere, Root);
            && HasPlace(f, p) && Get(v, path) == Some(ValueAt(f, nil, strings, Nowhere, p))
            && ValueAt(f, nil, strings, Hole(p, w), Root) == Put(v, path, w)
    decreases |path|
  {
    PlaceIsThere(f, nil, path);
    hide Forests.Valid, PutChild, Child;
    if path == [] {
      RootIsFilled(f, nil, strings, w);
    } else {
      var k, above := path[|path| - 1], path[..|path| - 1];
      var q := PlaceAt(f, above).value;
      PlaceIsThere(f, nil, above);
      hide ValueAt, Level;
      ChildIsPut(f, nil, strings, q, k, w);
      var w2 := PutChild(ValueAt(f, nil, strings, Nowhere, q), k, w);
      HoleIsPut(f, nil, strings, above, w2);
      HoleMoves(f, nil, strings, q, k, w, Root);
    }
  }

  lemma RootIsFilled(f: Forest, nil: SlotId, strings: seq<StringNode>, w: Value)
    requires Forests.Valid(f, nil)
    ensures ValueAt(f, nil, strings, Hole(Root, w), Root) == w
  {
  }

  /** No place, no value. */
  lemma {:induction false} NoPlaceNoValue(f: Forest, nil: SlotId, strings: seq<StringNode>, path: Path)
    requires Forests.Valid(f, nil) && PlaceAt(f, path).None?
    ensures Get(ValueAt(f, nil, strings, Nowhere, Root), path) == None
    decreases |path|
  {
    hide Forests.Valid, Level;
    var above := path[..|path| - 1];
    if PlaceAt(f, above).None? {
      NoPlaceNoValue(f, nil, strings, above);
    } else {
      var q := PlaceAt(f, above).value;
      HoleIsPut(f, nil, strings, above, Null);
      SizeIs(f, nil, strings, q);
    }
  }

  lemma SizeIs(f: Forest, nil: SlotId, strings: seq<StringNode>, q: Place)
    requires Forests.Valid(f, nil) && HasPlace(f, q)
    ensures var v := ValueAt(f, nil, strings, Nowhere, q);
            && ChildCount(v) == (if q in f.lists then |f.lists[q]| else 0)
            && (v.Arr? <==> DataAt(f, q).Array?) && (v.Obj? <==> DataAt(f, q).Object?)
  {
    CollectionHasList(f, nil, q);
    hide Forests.Valid;
    if q in f.lists {
      CollectionIs(f, nil, strings, q);
    }
  }
}

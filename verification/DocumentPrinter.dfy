/** The minified printer over the slots of a document. */
module DocumentPrinters {
  import opened Bytes
  import opened Ascii
  import opened Document
  import opened Printer
  import opened TextFormatters
  import opened JsonSerializers
  import opened Slots
  import opened StringPools
  import opened VariantPools
  import opened Forests
  import opened OwnerCounts
  import opened JsonDocuments
  import opened DocumentViews

  /** What the slot at the head of a list's rest holds. */
  lemma ChildIs(f: Forest, nil: SlotId, strings: seq<StringNode>, p: Place, k: nat)
    requires Forests.Valid(f, nil) && p in f.lists && k < |f.lists[p]|
    ensures var id, ms := f.lists[p][k], Children(f, nil, strings, Nowhere, p);
            && HasPlace(f, In(id)) && HasPlace(f, p) && id in f.h && k < |ms| == |f.lists[p]|
            && ms[k].value == ValueAt(f, nil, strings, Nowhere, In(id)) && ms[k].key == KeyText(strings, f.h[id].key)
            && Level(f, p) < Level(f, In(id)) <= f.limit
  {
    ChildIsDeeper(f, nil, p, k);
    hide Forests.Valid, ValueAt, KeyText, Level;
  }

  class DocumentSerializer {
    const doc: JsonDocument
    const formatter: TextFormatter

    constructor (doc: JsonDocument)
      ensures this.doc == doc && fresh(formatter) && formatter.out == []
    {
      this.doc := doc;
      formatter := new TextFormatter();
    }

    ghost function Held(p: Place): Value
      requires doc.Whole() && HasPlace(doc.forest, p)
      reads doc, doc.variantPools, doc.stringPool
    {
      ValueAt(doc.forest, doc.nil, doc.stringPool.strings, Nowhere, p)
    }

    method Visit(p: Place, ghost depth: nat)
      requires doc.Whole() && HasPlace(doc.forest, p) && Plain(Held(p))
      modifies formatter
      ensures formatter.out == old(formatter.out) + Render(Held(p), Minified, depth)
      decreases doc.forest.limit + 1 - Level(doc.forest, p), 1
    {
      hide Forests.Valid, OwnersCount, Consistent, Distinct, Level, Children, Values;
      ghost var f := doc.forest;
      CollectionHasList(f, doc.nil, p);
      var d := doc.DataOf(p);
      match d {
        case Simple(value) => VisitScalar(value, depth);
        case OwnedString(node) => formatter.WriteString(TextAt(doc.stringPool.strings, node));
        case Array(_, _) => VisitArray(p, depth);
        case Object(_, _) => VisitObject(p, depth);
      }
    }

    method VisitScalar(value: Scalar, ghost depth: nat)
      requires Plain(value)
      modifies formatter
      ensures formatter.out == old(formatter.out) + Render(value, Minified, depth)
    {
      match value {
        case Null => formatter.WriteRaw(NULL);
        case Bool(b) => formatter.WriteBoolean(b);
        case Int(i) => formatter.WriteInteger(i);
        case Str(s) => formatter.WriteString(s);
      }
    }

    method VisitArray(p: Place, ghost depth: nat)
      requires doc.Whole() && p in doc.forest.lists && HasPlace(doc.forest, p) && DataAt(doc.forest, p).Array?
      requires Plain(Held(p))
      modifies formatter
      ensures formatter.out == old(formatter.out) + Render(Held(p), Minified, depth)
      decreases doc.forest.limit + 1 - Level(doc.forest, p), 0
    {
      hide Forests.Valid, OwnersCount, Consistent, Distinct, Level, Children, ValueAt, Render, RenderElems, Line, Comma;
      ghost var f, nil, strings := doc.forest, doc.nil, doc.stringPool.strings;
      CollectionIs(f, nil, strings, p);
      ListIsHere(f, nil, p);
      ghost var ms := Children(f, nil, strings, Nowhere, p);
      ghost var vs := Values(ms);
      formatter.WriteRaw([OPEN_ARRAY]);
      ghost var start := formatter.out;
      ghost var body := RenderElems(vs, Minified, depth + 1);
      var d := doc.DataOf(p);
      var id := d.head;
      ghost var k := 0;
      assert vs[0..] == vs;
      while id != doc.nil
        invariant k <= |ms| && id == Link(f.lists[p], k, nil) && PlainElems(vs[k..])
        invariant formatter.out + RenderElems(vs[k..], Minified, depth + 1) == start + body
        decreases |ms| - k
      {
        SlotIs(f, nil, p, k);
        ChildIs(f, nil, strings, p, k);
        ElemsFrom(vs, k, Minified, depth + 1);
        ghost var before := formatter.out;
        Visit(In(id), depth + 1);
        var slot := doc.variantPools.GetSlot(id);
        id := slot.next;
        NextIsLast(f, nil, p, k + 1);
        VisitComma(id == doc.nil, before, Render(vs[k], Minified, depth + 1), depth + 1);
        Associates(before, Line(Render(vs[k], Minified, depth + 1), k + 1 == |vs|, Minified, depth + 1),
                   RenderElems(vs[k + 1..], Minified, depth + 1));
        k := k + 1;
      }
      NextIsLast(f, nil, p, k);
      NothingLeft(vs, [], Minified, depth + 1);
      assert formatter.out + [] == formatter.out;
      formatter.WriteRaw([CLOSE_ARRAY]);
      ArrayClosed(old(formatter.out), vs, depth);
    }

    method VisitComma(last: bool, ghost before: bytes, ghost text: bytes, ghost depth: nat)
      requires formatter.out == before + text
      modifies formatter
      ensures formatter.out == before + Line(text, last, Minified, depth)
    {
      MinifiedLine(before, text, last, depth);
      if !last {
        formatter.WriteRaw([COMMA]);
      } else {
        assert formatter.out + [] == formatter.out;
      }
    }

    method VisitObject(p: Place, ghost depth: nat)
      requires doc.Whole() && p in doc.forest.lists && HasPlace(doc.forest, p) && DataAt(doc.forest, p).Object?
      requires Plain(Held(p))
      modifies formatter
      ensures formatter.out == old(formatter.out) + Render(Held(p), Minified, depth)
      decreases doc.forest.limit + 1 - Level(doc.forest, p), 0
    {
      hide Forests.Valid, OwnersCount, Consistent, Distinct, Level, Children, ValueAt, Render, RenderMembers, Line,
          Comma;
      hide MemberText, KeyText;
      ghost var f, nil, strings := doc.forest, doc.nil, doc.stringPool.strings;
      CollectionIs(f, nil, strings, p);
      ListIsHere(f, nil, p);
      ghost var ms := Children(f, nil, strings, Nowhere, p);
      formatter.WriteRaw([OPEN_OBJECT]);
      ghost var start := formatter.out;
      ghost var body := RenderMembers(ms, Minified, depth + 1);
      var d := doc.DataOf(p);
      var id := d.head;
      ghost var k := 0;
      assert ms[0..] == ms;
      while id != doc.nil
        invariant k <= |ms| && id == Link(f.lists[p], k, nil) && PlainMembers(ms[k..])
        invariant formatter.out + RenderMembers(ms[k..], Minified, depth + 1) == start + body
        decreases |ms| - k
      {
        SlotIs(f, nil, p, k);
        ChildIs(f, nil, strings, p, k);
        MembersFrom(ms, k, Minified, depth + 1);
        ghost var before := formatter.out;
        var slot := doc.variantPools.GetSlot(id);
        formatter.WriteString(KeyText(doc.stringPool.strings, slot.key));
        formatter.WriteRaw([COLON]);
        Visit(In(id), depth + 1);
        MemberIsWritten(before, ms[k], depth + 1);
        id := slot.next;
        NextIsLast(f, nil, p, k + 1);
        VisitComma(id == doc.nil, before, MemberText(ms[k], Minified, depth + 1), depth + 1);
        Associates(before, Line(MemberText(ms[k], Minified, depth + 1), k + 1 == |ms|, Minified, depth + 1),
                   RenderMembers(ms[k + 1..], Minified, depth + 1));
        k := k + 1;
      }
      NextIsLast(f, nil, p, k);
      NothingLeft([], ms, Minified, depth + 1);
      assert formatter.out + [] == formatter.out;
      formatter.WriteRaw([CLOSE_OBJECT]);
      ObjectClosed(old(formatter.out), ms, depth);
    }
  }

  lemma SlotIs(f: Forest, nil: SlotId, p: Place, k: nat)
    requires Forests.Valid(f, nil) && p in f.lists && Link(f.lists[p], k, nil) != nil
    ensures k < |f.lists[p]| && f.lists[p][k] == Link(f.lists[p], k, nil) && f.lists[p][k] in f.h
    ensures f.h[f.lists[p][k]].next == Link(f.lists[p], k + 1, nil)
  {
    LinkSlot(f, nil, p, k);
  }

  lemma NextIsLast(f: Forest, nil: SlotId, p: Place, k: nat)
    requires Forests.Valid(f, nil) && p in f.lists && k <= |f.lists[p]|
    ensures Link(f.lists[p], k, nil) == nil <==> k == |f.lists[p]|
  {
    LinkIsNoNil(f, nil, p, k);
  }

  lemma MemberIsWritten(before: bytes, m: Member, depth: nat)
    requires Plain(m.value)
    ensures before + Quoted(m.key) + [COLON] + Render(m.value, Minified, depth)
            == before + MemberText(m, Minified, depth)
  {
    hide Render, Quoted;
    MemberWritten(before, Quoted(m.key), [COLON], Render(m.value, Minified, depth));
  }

  lemma ArrayClosed(before: bytes, vs: seq<Value>, depth: nat)
    requires PlainElems(vs)
    ensures before + [OPEN_ARRAY] + RenderElems(vs, Minified, depth + 1) + [CLOSE_ARRAY]
            == before + Render(Arr(vs), Minified, depth)
  {
    Closed(before, OPEN_ARRAY, RenderElems(vs, Minified, depth + 1), CLOSE_ARRAY);
  }

  lemma ObjectClosed(before: bytes, ms: seq<Member>, depth: nat)
    requires PlainMembers(ms)
    ensures before + [OPEN_OBJECT] + RenderMembers(ms, Minified, depth + 1) + [CLOSE_OBJECT]
            == before + Render(Obj(ms), Minified, depth)
  {
    Closed(before, OPEN_OBJECT, RenderMembers(ms, Minified, depth + 1), CLOSE_OBJECT);
  }
}

/** The JSON parser writing into the slots of a document. */
module DocumentDeserializers {
  import opened Bytes
  import opened Document
  import opened Ascii
  import opened Numbers
  import opened Filters
  import opened Options
  import opened StringBuilders
  import opened JsonFacts
  import opened JsonDeserializers
  import opened Slots
  import opened VariantPools
  import opened Forests
  import opened JsonDocuments
  import opened DocumentViews
  import opened DocumentPaths
  import opened DocumentHistories
  import opened DocumentEdits
  import J = Json
  import OwnerCounts
  import StringPools

  // What is stored when a parse ends.

  /** The value the function parses is put at the path; or its error is reported;
      or there was no memory for a slot. */
  ghost predicate IsStored(status: Status, before: Value, after: Value, path: Path, rest: bytes, r: Result<Value>,
                           overflowed: bool) {
    || (status == Failed(NoMemory) && overflowed)
    || match r
       case Ok(v, left) => status == Fine && rest == left && after == Put(before, path, v)
       case Err(code) => status == Failed(code)
  }

  /** What is kept of an element is behind the others. */
  ghost predicate IsAdded(status: Status, before: Value, after: Value, path: Path, vs: seq<Value>, more: seq<Value>,
                        rest: bytes, r: Result<seq<Value>>, overflowed: bool)
  {
    || (status == Failed(NoMemory) && overflowed)
    || match r
       case Ok(kept, left) => status == Fine && rest == left && more == vs + kept
           && after == Put(before, path, Arr(more))
       case Err(code) => status == Failed(code)
  }

  /** What is kept of a member is in its place. */
  ghost predicate IsPlaced(status: Status, before: Value, after: Value, path: Path, ms: seq<Member>, more: seq<Member>,
                         rest: bytes, r: Result<seq<Member>>, overflowed: bool)
  {
    || (status == Failed(NoMemory) && overflowed)
    || match r
       case Ok(kept, left) =>
         status == Fine && rest == left && more == PutAll(ms, kept) && after == Put(before, path, Obj(more))
       case Err(code) => status == Failed(code)
  }

  function ArrayFrom(r: Result<seq<Value>>): Result<Value> {
    match r
    case Err(code) => Err(code)
    case Ok(vs, rest) => Ok(Arr(vs), rest)
  }

  lemma {:induction false} ElementIsPut(v: Value, path: Path, vs: seq<Value>, w: Value)
    requires Get(v, path).Some?
    ensures var h := Put(v, path, Arr(vs + [Null]));
            && Put(Put(v, path, Arr(vs)), path, Arr(vs + [Null])) == h
            && Get(h, Below(path, |vs|)) == Some(Null)
            && Put(h, Below(path, |vs|), w) == Put(v, path, Arr(vs + [w]))
  {
    PutTwice(v, path, Arr(vs), Arr(vs + [Null]));
    PutDeeper(v, path, Arr(vs + [Null]), |vs|, w);
    assert (vs + [Null])[|vs| := w] == vs + [w];
  }

  lemma {:induction false} NewMemberIsPut(v: Value, path: Path, ms: seq<Member>, key: bytes, w: Value)
    requires Get(v, path).Some? && forall i | 0 <= i < |ms| :: ms[i].key != key
    ensures var h := Put(v, path, Obj(ms + [Member(key, Null)]));
            && Put(Put(v, path, Obj(ms)), path, Obj(ms + [Member(key, Null)])) == h
            && Get(h, Below(path, |ms|)) == Some(Null)
            && Put(h, Below(path, |ms|), w) == Put(v, path, Obj(Filters.PutMember(ms, Member(key, w))))
  {
    var all := ms + [Member(key, Null)];
    PutTwice(v, path, Obj(ms), Obj(all));
    PutDeeper(v, path, Obj(all), |ms|, w);
    NewKey(ms, Member(key, w));
    assert all[|ms| := all[|ms|].(value := w)] == ms + [Member(key, w)];
  }

  lemma {:induction false} NewKey(ms: seq<Member>, m: Member)
    requires forall i | 0 <= i < |ms| :: ms[i].key != m.key
    ensures Filters.PutMember(ms, m) == ms + [m]
  {
    if ms == [] {
    } else {
      NewKey(ms[1..], m);
      assert ms == [ms[0]] + ms[1..];
    }
  }

  /** A member met again: null first, then the new value, where it stands. */
  lemma {:induction false} OldMemberIsPut(v: Value, path: Path, ms: seq<Member>, k: nat, key: bytes, w: Value)
    requires Get(v, path).Some? && k < |ms| && ms[k].key == key && forall i | 0 <= i < k :: ms[i].key != key
    ensures var c := Below(path, k);
            var h := Put(Put(v, path, Obj(ms)), c, Null);
            && Get(h, c) == Some(Null) && Put(h, c, w) == Put(v, path, Obj(Filters.PutMember(ms, Member(key, w))))
  {
    var u := PutChild(Obj(ms), k, Null);
    PutDeeper(v, path, Obj(ms), k, Null);
    PutDeeper(v, path, u, k, w);
    OldKey(ms, k, Member(key, w));
    assert PutChild(u, k, w) == PutChild(Obj(ms), k, w);
  }

  lemma {:induction false} OldKey(ms: seq<Member>, k: nat, m: Member)
    requires k < |ms| && ms[k].key == m.key && forall i | 0 <= i < k :: ms[i].key != m.key
    ensures Filters.PutMember(ms, m) == ms[k := m] && ms[k].(value := m.value) == m
    decreases k
  {
    if k == 0 {
      assert [m] + ms[1..] == ms[0 := m];
    } else {
      OldKey(ms[1..], k - 1, m);
      assert [ms[0]] + ms[1..][k - 1 := m] == ms[k := m];
    }
  }

  class DocumentDeserializer {
    const reader: JsonDeserializer
    const doc: JsonDocument

    ghost predicate Valid()
      reads reader, reader.latch, reader.builder, doc, doc.variantPools, doc.stringPool
    {
      reader.Valid() && doc.Whole()
    }

    constructor (input: bytes, maxString: nat, config: Config)
      requires Doubles(INITIAL_CAPACITY, maxString) && config.Good()
      ensures Valid() && Held(doc) == Null && !doc.overflowed && doc.strays == multiset{}
      ensures fresh(reader) && fresh(reader.latch) && fresh(reader.builder)
      ensures fresh(doc) && fresh(doc.variantPools) && fresh(doc.stringPool)
      ensures reader.latch.rest == input && !reader.foundSomething && reader.builder.maxString == maxString
    {
      hide ValueAt, Forests.Valid, OwnerCounts.OwnersCount, Consistent, StringPools.Distinct, Config.Good, Doubles;
      reader := new JsonDeserializer(input, maxString);
      doc := new JsonDocument(config);
      new;
      NewIsNull(doc.forest, doc.nil, doc.stringPool.strings);
    }

    /** JsonDeserializer::parse into a null document. */
    method Parse(filter: Filter, limit: nat) returns (status: Status)
      requires Valid() && !reader.foundSomething && Held(doc) == Null
      modifies reader, reader.latch, reader.builder, doc, doc.variantPools, doc.stringPool
      ensures Valid() && (old(doc.overflowed) ==> doc.overflowed) && (doc.overflowed || doc.strays == old(doc.strays))
      ensures IsStored(status, Null, Held(doc), [], reader.latch.rest,
                       J.Parse(old(reader.latch.rest), filter, limit, reader.builder.maxString), doc.overflowed)
    {
      hide Held, At, JsonDocument.Whole, JsonDocument.Valid;
      RootIsAt(doc);
      status := ParseVariant([], Root, filter, limit);
      if status.Fine? {
        RootHolds(doc);
        if doc.data.Simple? && J.IsNumber(doc.data.value) && reader.latch.current != NUL {
          // trailing characters are not detected earlier
          status := Failed(InvalidInput);
        }
      }
    }

    method ParseVariant(ghost path: Path, p: Place, filter: Filter, limit: nat) returns (status: Status)
      requires Valid() && At(doc, path, p) && Get(Held(doc), path) == Some(Null)
      modifies reader, reader.latch, reader.builder, doc, doc.variantPools, doc.stringPool
      ensures Valid() && (old(reader.foundSomething) || status.Fine? ==> reader.foundSomething)
      ensures (old(doc.overflowed) ==> doc.overflowed) && (doc.overflowed || doc.strays == old(doc.strays))
      ensures var r := J.ParseVariant(old(reader.latch.rest), old(reader.foundSomething), filter, limit,
                                      reader.builder.maxString);
              && IsStored(status, old(Held(doc)), Held(doc), path, reader.latch.rest, r, doc.overflowed)
              && (status.Fine? && r.Ok? && J.IsNumber(r.value) ==> reader.latch.loaded)
      ensures status.Fine? ==> At(doc, path, p) && SamePlaces(old(doc.forest), doc.forest, path)
      decreases |reader.latch.rest|, 1
    {
      hide Held, At, JsonDocument.Whole, JsonDocument.Valid, Get, Put, PlaceAt, SamePlaces;
      status := reader.SkipSpaces();
      if status.Failed? { return; }
      ghost var t := reader.latch.rest;
      assert J.ParseVariant(old(reader.latch.rest), old(reader.foundSomething), filter, limit, reader.builder.maxString)
          == J.ParseValue(t, filter, limit, reader.builder.maxString);
      status := ParseValue(path, p, filter, limit);
    }

    method ParseValue(ghost path: Path, p: Place, filter: Filter, limit: nat) returns (status: Status)
      requires Valid() && At(doc, path, p) && Get(Held(doc), path) == Some(Null) && reader.foundSomething
      modifies reader, reader.latch, reader.builder, doc, doc.variantPools, doc.stringPool
      ensures Valid() && reader.foundSomething
      ensures (old(doc.overflowed) ==> doc.overflowed) && (doc.overflowed || doc.strays == old(doc.strays))
      ensures var r := J.ParseValue(old(reader.latch.rest), filter, limit, reader.builder.maxString);
              && IsStored(status, old(Held(doc)), Held(doc), path, reader.latch.rest, r, doc.overflowed)
              && (status.Fine? && r.Ok? && J.IsNumber(r.value) ==> reader.latch.loaded)
      ensures status.Fine? ==> At(doc, path, p) && SamePlaces(old(doc.forest), doc.forest, path)
      decreases |reader.latch.rest|, 0, 2
    {
      hide Held, At, JsonDocument.Whole, JsonDocument.Valid, Get, Put, PlaceAt, SamePlaces;
      hide IsStored;
      var c := reader.latch.Current();
      if c == OPEN_ARRAY && filter.AllowArray() {
        status := ParseArrayValue(path, p, filter, limit);
      } else if c == OPEN_OBJECT && filter.AllowObject() {
        status := ParseObjectValue(path, p, filter, limit);
      } else {
        status := ParseScalar(path, p, filter, limit);
      }
    }

    method ParseArrayValue(ghost path: Path, p: Place, filter: Filter, limit: nat) returns (status: Status)
      requires Valid() && At(doc, path, p) && Get(Held(doc), path) == Some(Null) && reader.foundSomething
      requires reader.latch.loaded && Head(reader.latch.rest) == OPEN_ARRAY
      modifies reader, reader.latch, reader.builder, doc, doc.variantPools, doc.stringPool
      ensures Valid() && reader.foundSomething
      ensures (old(doc.overflowed) ==> doc.overflowed) && (doc.overflowed || doc.strays == old(doc.strays))
      ensures IsStored(status, old(Held(doc)), Held(doc), path, reader.latch.rest,
                       J.ParseArray(old(reader.latch.rest), filter, limit, reader.builder.maxString), doc.overflowed)
      ensures status.Fine? ==> At(doc, path, p) && SamePlaces(old(doc.forest), doc.forest, path)
      decreases |reader.latch.rest|, 0, 1
    {
      hide Held, At, JsonDocument.Whole, JsonDocument.Valid, Get, Put, PlaceAt, SamePlaces;
      hide IsStored, J.ParseArray;
      ghost var v0 := Held(doc);
      PutCollection(doc, path, p, true);
      ghost var g := doc.forest;
      status := ParseArray(path, p, v0, filter, limit);
      if status.Fine? { SamePlacesTwice(old(doc.forest), g, doc.forest, path); }
    }

    method ParseObjectValue(ghost path: Path, p: Place, filter: Filter, limit: nat) returns (status: Status)
      requires Valid() && At(doc, path, p) && Get(Held(doc), path) == Some(Null) && reader.foundSomething
      requires reader.latch.loaded && Head(reader.latch.rest) == OPEN_OBJECT
      modifies reader, reader.latch, reader.builder, doc, doc.variantPools, doc.stringPool
      ensures Valid() && reader.foundSomething
      ensures (old(doc.overflowed) ==> doc.overflowed) && (doc.overflowed || doc.strays == old(doc.strays))
      ensures IsStored(status, old(Held(doc)), Held(doc), path, reader.latch.rest,
                       J.ParseObject(old(reader.latch.rest), filter, limit, reader.builder.maxString), doc.overflowed)
      ensures status.Fine? ==> At(doc, path, p) && SamePlaces(old(doc.forest), doc.forest, path)
      decreases |reader.latch.rest|, 0, 1
    {
      hide Held, At, JsonDocument.Whole, JsonDocument.Valid, Get, Put, PlaceAt, SamePlaces;
      hide IsStored, J.ParseObject;
      ghost var v0 := Held(doc);
      PutCollection(doc, path, p, false);
      ghost var g := doc.forest;
      status := ParseObject(path, p, v0, filter, limit);
      if status.Fine? { SamePlacesTwice(old(doc.forest), g, doc.forest, path); }
    }

    /** Anything but a collection that is kept. */
    method ParseScalar(ghost path: Path, p: Place, filter: Filter, limit: nat) returns (status: Status)
      requires Valid() && At(doc, path, p) && Get(Held(doc), path) == Some(Null) && reader.foundSomething
               && reader.latch.loaded
      requires Head(reader.latch.rest) == OPEN_ARRAY ==> !filter.AllowArray()
      requires Head(reader.latch.rest) == OPEN_OBJECT ==> !filter.AllowObject()
      modifies reader, reader.latch, reader.builder, doc, doc.variantPools, doc.stringPool
      ensures Valid() && reader.foundSomething
      ensures (old(doc.overflowed) ==> doc.overflowed) && (doc.overflowed || doc.strays == old(doc.strays))
      ensures var r := J.ParseValue(old(reader.latch.rest), filter, limit, reader.builder.maxString);
              && IsStored(status, old(Held(doc)), Held(doc), path, reader.latch.rest, r, doc.overflowed)
              && (status.Fine? && r.Ok? && J.IsNumber(r.value) ==> reader.latch.loaded)
      ensures At(doc, path, p) && SamePlaces(old(doc.forest), doc.forest, path)
    {
      hide Held, At, JsonDocument.Whole, JsonDocument.Valid, Get, Put, PlaceAt, SamePlaces;
      SamePlacesHere(doc.forest, path);
      PutAndGet(Held(doc), path, Null);
      var c := reader.latch.Current();
      if c == OPEN_ARRAY {
        status := reader.SkipArray(limit);
      } else if c == OPEN_OBJECT {
        status := reader.SkipObject(limit);
      } else if IsQuote(c) && filter.AllowValue() {
        status := ParseStringValue(path, p, filter, limit);
      } else if IsQuote(c) {
        status := reader.SkipQuotedString();
      } else if c == TRUE[0] || c == FALSE[0] {
        status := ParseBoolean(path, p, filter, limit);
      } else if c == NULL[0] {
        status := reader.SkipKeyword(NULL);
      } else if filter.AllowValue() {
        status := ParseNumericValue(path, p, filter, limit);
      } else {
        reader.SkipNumericValue();
        status := Fine;
      }
    }

    /** A string that is kept. */
    method ParseStringValue(ghost path: Path, p: Place, filter: Filter, limit: nat) returns (status: Status)
      requires Valid() && At(doc, path, p) && Get(Held(doc), path) == Some(Null) && reader.foundSomething
               && reader.latch.loaded
      requires IsQuote(Head(reader.latch.rest)) && filter.AllowValue()
      modifies reader, reader.latch, reader.builder, doc, doc.variantPools, doc.stringPool
      ensures Valid() && reader.foundSomething
      ensures (old(doc.overflowed) ==> doc.overflowed) && (doc.overflowed || doc.strays == old(doc.strays))
      ensures var r := J.ParseValue(old(reader.latch.rest), filter, limit, reader.builder.maxString);
              && IsStored(status, old(Held(doc)), Held(doc), path, reader.latch.rest, r, doc.overflowed)
              && (status.Fine? && r.Ok? && J.IsNumber(r.value) ==> reader.latch.loaded)
      ensures At(doc, path, p) && SamePlaces(old(doc.forest), doc.forest, path)
    {
      hide Held, At, JsonDocument.Whole, JsonDocument.Valid, Get, Put, PlaceAt, SamePlaces;
      hide J.ParseString;
      SamePlacesHere(doc.forest, path);
      var v;
      status, v := reader.ParseStringValue();
      if status.Fine? {
        StringsAreStrings(old(reader.latch.rest), reader.builder.maxString);
        PutString(doc, path, p, v.s);
      }
    }

    /** One of the two keywords; the value is set before the keyword is read. */
    method ParseBoolean(ghost path: Path, p: Place, filter: Filter, limit: nat) returns (status: Status)
      requires Valid() && At(doc, path, p) && Get(Held(doc), path) == Some(Null) && reader.foundSomething
               && reader.latch.loaded
      requires Head(reader.latch.rest) == TRUE[0] || Head(reader.latch.rest) == FALSE[0]
      modifies reader, reader.latch, reader.builder, doc, doc.variantPools, doc.stringPool
      ensures Valid() && reader.foundSomething
      ensures (old(doc.overflowed) ==> doc.overflowed) && (doc.overflowed || doc.strays == old(doc.strays))
      ensures var r := J.ParseValue(old(reader.latch.rest), filter, limit, reader.builder.maxString);
              && IsStored(status, old(Held(doc)), Held(doc), path, reader.latch.rest, r, doc.overflowed)
              && (status.Fine? && r.Ok? && J.IsNumber(r.value) ==> reader.latch.loaded)
      ensures At(doc, path, p) && SamePlaces(old(doc.forest), doc.forest, path)
    {
      hide Held, At, JsonDocument.Whole, JsonDocument.Valid, Get, Put, PlaceAt, SamePlaces;
      hide J.Keyword;
      SamePlacesHere(doc.forest, path);
      PutAndGet(Held(doc), path, Null);
      var c := reader.latch.Current();
      if filter.AllowValue() {
        PutScalar(doc, path, p, Bool(c == TRUE[0]));
      }
      status := reader.SkipKeyword(if c == TRUE[0] then TRUE else FALSE);
    }

    /** A number that is kept. */
    method ParseNumericValue(ghost path: Path, p: Place, filter: Filter, limit: nat) returns (status: Status)
      requires Valid() && At(doc, path, p) && Get(Held(doc), path) == Some(Null) && reader.foundSomething
               && reader.latch.loaded
      requires filter.AllowValue() && !IsQuote(Head(reader.latch.rest)) && Head(reader.latch.rest) != TRUE[0]
      requires Head(reader.latch.rest) != FALSE[0] && Head(reader.latch.rest) != NULL[0]
      requires Head(reader.latch.rest) != OPEN_ARRAY && Head(reader.latch.rest) != OPEN_OBJECT
      modifies reader, reader.latch, reader.builder, doc, doc.variantPools, doc.stringPool
      ensures Valid() && reader.foundSomething
      ensures (old(doc.overflowed) ==> doc.overflowed) && (doc.overflowed || doc.strays == old(doc.strays))
      ensures var r := J.ParseValue(old(reader.latch.rest), filter, limit, reader.builder.maxString);
              && IsStored(status, old(Held(doc)), Held(doc), path, reader.latch.rest, r, doc.overflowed)
              && (status.Fine? && r.Ok? && J.IsNumber(r.value) ==> reader.latch.loaded)
      ensures At(doc, path, p) && SamePlaces(old(doc.forest), doc.forest, path)
    {
      hide Held, At, JsonDocument.Whole, JsonDocument.Valid, Get, Put, PlaceAt, SamePlaces;
      hide J.ParseNumeric;
      SamePlacesHere(doc.forest, path);
      NumbersAreNumbers(reader.latch.rest);
      var v;
      status, v := reader.ParseNumericValue();
      if status.Fine? {
        PutScalar(doc, path, p, v);
      }
    }

    method ParseElement(ghost path: Path, p: Place, ghost v0: Value, ghost vs: seq<Value>, filter: Filter, limit: nat)
      returns (status: Status, ghost more: seq<Value>, ghost kept: seq<Value>)
      requires Valid() && At(doc, path, p) && reader.foundSomething
      requires Get(v0, path).Some? && Held(doc) == Put(v0, path, Arr(vs))
      modifies reader, reader.latch, reader.builder, doc, doc.variantPools, doc.stringPool
      ensures Valid() && reader.foundSomething
      ensures (old(doc.overflowed) ==> doc.overflowed) && (doc.overflowed || doc.strays == old(doc.strays))
      ensures var r := J.ParseElem(old(reader.latch.rest), filter, limit, reader.builder.maxString);
              && IsAdded(status, v0, Held(doc), path, vs, more, reader.latch.rest, r, doc.overflowed)
              && (status.Fine? ==> r.Ok? && kept == r.value)
      ensures status.Fine? ==> At(doc, path, p) && SamePlaces(old(doc.forest), doc.forest, path)
      decreases |reader.latch.rest|, 2
    {
      hide Held, JsonDocument.Whole, JsonDocument.Valid, Get, Put, PlaceAt, SamePlaces;
      more, kept := vs, [];
      ghost var f := doc.forest;
      SamePlacesHere(f, path);
      if filter.Allow() {
        PutAndGet(v0, path, Arr(vs));
        var growOk: bool, poolOk: bool := *, *;
        var id := PutNewElement(doc, path, p, vs, growOk, poolOk);
        if id == doc.nil {
          return Failed(NoMemory), more, kept;
        }
        ElementIsPut(v0, path, vs, Null);
        ghost var c, g := Below(path, |vs|), doc.forest;
        status := ParseVariant(c, In(id), filter, limit);
        if status.Fine? {
          ghost var v := J.ParseVariant(old(reader.latch.rest), true, filter, limit, reader.builder.maxString).value;
          ElementIsPut(v0, path, vs, v);
          more, kept := vs + [v], [v];
          SamePlacesAbove(g, doc.forest, path, |vs|);
          SamePlacesTwice(f, g, doc.forest, path);
          StillAt(doc, f, path, p);
        }
      } else {
        status := reader.SkipVariant(limit);
        assert vs + [] == vs;
      }
    }

    method ParseArray(ghost path: Path, p: Place, ghost v0: Value, filter: Filter, limit: nat) returns (status: Status)
      requires Valid() && At(doc, path, p) && reader.foundSomething && reader.latch.loaded
               && Head(reader.latch.rest) == OPEN_ARRAY
      requires Get(v0, path).Some? && Held(doc) == Put(v0, path, Arr([]))
      modifies reader, reader.latch, reader.builder, doc, doc.variantPools, doc.stringPool
      ensures Valid() && reader.foundSomething
      ensures (old(doc.overflowed) ==> doc.overflowed) && (doc.overflowed || doc.strays == old(doc.strays))
      ensures IsStored(status, v0, Held(doc), path, reader.latch.rest,
                     J.ParseArray(old(reader.latch.rest), filter, limit, reader.builder.maxString), doc.overflowed)
      ensures status.Fine? ==> At(doc, path, p) && SamePlaces(old(doc.forest), doc.forest, path)
      decreases |reader.latch.rest|, 0, 0
    {
      hide Held, At, JsonDocument.Whole, JsonDocument.Valid, Get, Put, PlaceAt, SamePlaces;
      ghost var f := doc.forest;
      SamePlacesHere(f, path);
      if limit == 0 { return Failed(TooDeep); }
      reader.latch.Clear();
      status := reader.SkipSpaces();
      if status.Failed? { return; }
      var done := reader.Eat(CLOSE_ARRAY);
      if done { return Fine; }
      status := ParseElements(path, p, v0, filter.AtElement(), limit - 1);
    }

    /** One turn of the loop below: an element and what separates it from the next. */
    method NextElement(ghost path: Path, p: Place, ghost v0: Value, ghost vs: seq<Value>, filter: Filter, limit: nat)
      returns (status: Status, done: bool, ghost more: seq<Value>, ghost kept: seq<Value>)
      requires Valid() && At(doc, path, p) && reader.foundSomething
      requires Get(v0, path).Some? && Held(doc) == Put(v0, path, Arr(vs))
      modifies reader, reader.latch, reader.builder, doc, doc.variantPools, doc.stringPool
      ensures Valid() && reader.foundSomething
      ensures (old(doc.overflowed) ==> doc.overflowed) && (doc.overflowed || doc.strays == old(doc.strays))
      ensures var r := J.ParseElems(old(reader.latch.rest), filter, limit, reader.builder.maxString);
              if status.Fine? then
                && |reader.latch.rest| < old(|reader.latch.rest|) + (if done then 1 else 0) && more == vs + kept
                && Held(doc) == Put(v0, path, Arr(more))
                && r == (if done then Ok(kept, reader.latch.rest)
                         else Prepend(kept, J.ParseElems(reader.latch.rest, filter, limit, reader.builder.maxString)))
              else (status.code == NoMemory && doc.overflowed) || r == Err(status.code)
      ensures status.Fine? ==> At(doc, path, p) && SamePlaces(old(doc.forest), doc.forest, path)
      decreases |reader.latch.rest|, 4
    {
      hide Held, At, JsonDocument.Whole, JsonDocument.Valid, Get, Put, PlaceAt, SamePlaces;
      hide J.ParseElem, J.Separator;
      status, more, kept := ParseElement(path, p, v0, vs, filter, limit);
      done := false;
      if status.Failed? { return; }
      status, done := reader.AtSeparator(CLOSE_ARRAY);
    }

    /** The loop of parseArray. */
    method ParseElements(ghost path: Path, p: Place, ghost v0: Value, filter: Filter, limit: nat)
      returns (status: Status)
      requires Valid() && At(doc, path, p) && reader.foundSomething
      requires Get(v0, path).Some? && Held(doc) == Put(v0, path, Arr([]))
      modifies reader, reader.latch, reader.builder, doc, doc.variantPools, doc.stringPool
      ensures Valid() && reader.foundSomething
      ensures (old(doc.overflowed) ==> doc.overflowed) && (doc.overflowed || doc.strays == old(doc.strays))
      ensures IsStored(status, v0, Held(doc), path, reader.latch.rest,
                       ArrayFrom(J.ParseElems(old(reader.latch.rest), filter, limit, reader.builder.maxString)),
                       doc.overflowed)
      ensures status.Fine? ==> At(doc, path, p) && SamePlaces(old(doc.forest), doc.forest, path)
      decreases |reader.latch.rest|, 5
    {
      hide Held, At, JsonDocument.Whole, JsonDocument.Valid, Get, Put, PlaceAt, SamePlaces;
      hide J.ParseElems;
      ghost var f := doc.forest;
      SamePlacesHere(f, path);
      ghost var vs: seq<Value> := [];
      var done := false;
      ghost var whole := J.ParseElems(reader.latch.rest, filter, limit, reader.builder.maxString);
      PrependNothing(whole);
      while !done
        invariant Valid() && reader.foundSomething && |reader.latch.rest| <= old(|reader.latch.rest|)
        invariant At(doc, path, p) && SamePlaces(f, doc.forest, path) && Held(doc) == Put(v0, path, Arr(vs))
        invariant (old(doc.overflowed) ==> doc.overflowed) && (doc.overflowed || doc.strays == old(doc.strays))
        invariant whole == if done then Ok(vs, reader.latch.rest) else
                    Prepend(vs, J.ParseElems(reader.latch.rest, filter, limit, reader.builder.maxString))
        decreases !done, |reader.latch.rest|
      {
        ghost var more, kept, g;
        g := doc.forest;
        status, done, more, kept := NextElement(path, p, v0, vs, filter, limit);
        if status.Failed? { return; }
        SamePlacesTwice(f, g, doc.forest, path);
        PrependMore(vs, kept, J.ParseElems(reader.latch.rest, filter, limit, reader.builder.maxString));
        vs := more;
      }
      status := Fine;
    }

    method ParseObject(ghost path: Path, p: Place, ghost v0: Value, filter: Filter, limit: nat) returns (status: Status)
      requires Valid() && At(doc, path, p) && reader.foundSomething && reader.latch.loaded
               && Head(reader.latch.rest) == OPEN_OBJECT
      requires Get(v0, path).Some? && Held(doc) == Put(v0, path, Obj([]))
      modifies reader, reader.latch, reader.builder, doc, doc.variantPools, doc.stringPool
      ensures Valid() && reader.foundSomething
      ensures (old(doc.overflowed) ==> doc.overflowed) && (doc.overflowed || doc.strays == old(doc.strays))
      ensures IsStored(status, v0, Held(doc), path, reader.latch.rest,
                     J.ParseObject(old(reader.latch.rest), filter, limit, reader.builder.maxString), doc.overflowed)
      ensures status.Fine? ==> At(doc, path, p) && SamePlaces(old(doc.forest), doc.forest, path)
      decreases |reader.latch.rest|, 0, 0
    {
      hide Held, At, JsonDocument.Whole, JsonDocument.Valid, Get, Put, PlaceAt, SamePlaces;
      ghost var f := doc.forest;
      SamePlacesHere(f, path);
      if limit == 0 { return Failed(TooDeep); }
      reader.latch.Clear();
      status := reader.SkipSpaces();
      if status.Failed? { return; }
      var done := reader.Eat(CLOSE_OBJECT);
      if done { return Fine; }
      status := ParseMembers(path, p, v0, filter, limit - 1);
    }

    /** One turn of the loop below: a member and what separates it from the next. */
    method NextMember(ghost path: Path, p: Place, ghost v0: Value, ghost ms: seq<Member>, filter: Filter, limit: nat)
      returns (status: Status, done: bool, ghost more: seq<Member>, ghost kept: seq<Member>)
      requires Valid() && At(doc, path, p) && reader.foundSomething
      requires Get(v0, path).Some? && Held(doc) == Put(v0, path, Obj(ms))
      modifies reader, reader.latch, reader.builder, doc, doc.variantPools, doc.stringPool
      ensures Valid() && reader.foundSomething
      ensures (old(doc.overflowed) ==> doc.overflowed) && (doc.overflowed || doc.strays == old(doc.strays))
      ensures var r := J.ParseMembers(old(reader.latch.rest), filter, limit, reader.builder.maxString);
              if status.Fine? then
                && |reader.latch.rest| < old(|reader.latch.rest|) + (if done then 1 else 0) && more == PutAll(ms, kept)
                && Held(doc) == Put(v0, path, Obj(more))
                && r == (if done then Ok(kept, reader.latch.rest)
                         else Prepend(kept, J.ParseMembers(reader.latch.rest, filter, limit, reader.builder.maxString)))
              else (status.code == NoMemory && doc.overflowed) || r == Err(status.code)
      ensures status.Fine? ==> At(doc, path, p) && SamePlaces(old(doc.forest), doc.forest, path)
      decreases |reader.latch.rest|, 4
    {
      hide Held, At, JsonDocument.Whole, JsonDocument.Valid, Get, Put, PlaceAt, SamePlaces;
      hide J.ParseMember, J.MemberSeparator, PutAll;
      status, more, kept := ParseMember(path, p, v0, ms, filter, limit);
      done := false;
      if status.Failed? { return; }
      status, done := reader.AtMemberSeparator();
    }

    /** The loop of parseObject. */
    method ParseMembers(ghost path: Path, p: Place, ghost v0: Value, filter: Filter, limit: nat)
      returns (status: Status)
      requires Valid() && At(doc, path, p) && reader.foundSomething
      requires Get(v0, path).Some? && Held(doc) == Put(v0, path, Obj([]))
      modifies reader, reader.latch, reader.builder, doc, doc.variantPools, doc.stringPool
      ensures Valid() && reader.foundSomething
      ensures (old(doc.overflowed) ==> doc.overflowed) && (doc.overflowed || doc.strays == old(doc.strays))
      ensures IsStored(status, v0, Held(doc), path, reader.latch.rest,
                       J.ObjectFrom(J.ParseMembers(old(reader.latch.rest), filter, limit, reader.builder.maxString)),
                       doc.overflowed)
      ensures status.Fine? ==> At(doc, path, p) && SamePlaces(old(doc.forest), doc.forest, path)
      decreases |reader.latch.rest|, 5
    {
      hide Held, At, JsonDocument.Whole, JsonDocument.Valid, Get, Put, PlaceAt, SamePlaces;
      hide J.ParseMembers, PutAll;
      NothingPut();
      ghost var f := doc.forest;
      SamePlacesHere(f, path);
      ghost var ms: seq<Member>, raw: seq<Member> := [], [];
      var done := false;
      ghost var whole := J.ParseMembers(reader.latch.rest, filter, limit, reader.builder.maxString);
      PrependNothing(whole);
      while !done
        invariant Valid() && reader.foundSomething && |reader.latch.rest| <= old(|reader.latch.rest|)
        invariant At(doc, path, p) && SamePlaces(f, doc.forest, path) && Held(doc) == Put(v0, path, Obj(ms))
        invariant ms == PutAll([], raw)
        invariant (old(doc.overflowed) ==> doc.overflowed) && (doc.overflowed || doc.strays == old(doc.strays))
        invariant whole == if done then Ok(raw, reader.latch.rest) else
                    Prepend(raw, J.ParseMembers(reader.latch.rest, filter, limit, reader.builder.maxString))
        decreases !done, |reader.latch.rest|
      {
        ghost var more, kept, g;
        g := doc.forest;
        status, done, more, kept := NextMember(path, p, v0, ms, filter, limit);
        if status.Failed? { return; }
        SamePlacesTwice(f, g, doc.forest, path);
        PutAllMore([], raw, kept);
        PrependMore(raw, kept, J.ParseMembers(reader.latch.rest, filter, limit, reader.builder.maxString));
        ms, raw := more, raw + kept;
      }
      status := Fine;
    }

    /** A key, as the C string it is from here on, and the colon. */
    method ParseKeyColon() returns (status: Status, key: bytes)
      requires reader.Valid() && reader.foundSomething
      modifies reader, reader.latch, reader.builder
      ensures reader.Valid() && reader.foundSomething
      ensures Agrees(status, key, reader.latch.rest, J.ParseKeyColon(old(reader.latch.rest), reader.builder.maxString))
      ensures status.Fine? ==> reader.builder.node.Some?
    {
      key := [];
      status := reader.ParseKey();
      if status.Failed? { return; }
      key := CString(reader.builder.text);
      status := reader.AtColon();
    }

    method ParseMember(ghost path: Path, p: Place, ghost v0: Value, ghost ms: seq<Member>, filter: Filter, limit: nat)
      returns (status: Status, ghost more: seq<Member>, ghost kept: seq<Member>)
      requires Valid() && At(doc, path, p) && reader.foundSomething
      requires Get(v0, path).Some? && Held(doc) == Put(v0, path, Obj(ms))
      modifies reader, reader.latch, reader.builder, doc, doc.variantPools, doc.stringPool
      ensures Valid() && reader.foundSomething
      ensures (old(doc.overflowed) ==> doc.overflowed) && (doc.overflowed || doc.strays == old(doc.strays))
      ensures var r := J.ParseMember(old(reader.latch.rest), filter, limit, reader.builder.maxString);
              && IsPlaced(status, v0, Held(doc), path, ms, more, reader.latch.rest, r, doc.overflowed)
              && (status.Fine? ==> r.Ok? && kept == r.value)
      ensures status.Fine? ==> At(doc, path, p) && SamePlaces(old(doc.forest), doc.forest, path)
      decreases |reader.latch.rest|, 3
    {
      hide Held, At, JsonDocument.Whole, JsonDocument.Valid, Get, Put, PlaceAt, SamePlaces, J.ParseKeyColon,
          J.ParseVariant;
      hide J.SkipVariant;
      more, kept := ms, [];
      SamePlacesHere(doc.forest, path);
      var key;
      status, key := ParseKeyColon();
      if status.Failed? { return; }
      var memberFilter := filter.AtKey(key);
      if memberFilter.Allow() {
        status, more, kept := ParseMemberValue(path, p, v0, ms, key, memberFilter, limit);
      } else {
        status := reader.SkipVariant(limit);
      }
    }

    /** The value of a member that is kept: of a new one, or of one met before. */
    method ParseMemberValue(ghost path: Path, p: Place, ghost v0: Value, ghost ms: seq<Member>, key: bytes,
                            filter: Filter, limit: nat)
      returns (status: Status, ghost more: seq<Member>, ghost kept: seq<Member>)
      requires Valid() && At(doc, path, p) && reader.foundSomething && reader.builder.node.Some?
      requires Get(v0, path).Some? && Held(doc) == Put(v0, path, Obj(ms))
      modifies reader, reader.latch, reader.builder, doc, doc.variantPools, doc.stringPool
      ensures Valid() && reader.foundSomething
      ensures (old(doc.overflowed) ==> doc.overflowed) && (doc.overflowed || doc.strays == old(doc.strays))
      ensures var r := J.ParseVariant(old(reader.latch.rest), true, filter, limit, reader.builder.maxString);
              || (status == Failed(NoMemory) && doc.overflowed)
              || (match r
                  case Ok(v, left) =>
                    && status == Fine && reader.latch.rest == left && kept == [Member(key, v)]
                    && more == PutAll(ms, kept)
                    && Held(doc) == Put(v0, path, Obj(more))
                  case Err(code) => status == Failed(code))
      ensures status.Fine? ==> At(doc, path, p) && SamePlaces(old(doc.forest), doc.forest, path)
      decreases |reader.latch.rest|, 2
    {
      hide Held, JsonDocument.Whole, JsonDocument.Valid, Get, Put, PlaceAt, SamePlaces;
      more, kept := ms, [];
      ghost var f := doc.forest;
      PutAndGet(v0, path, Obj(ms));
      var id;
      ghost var k;
      id, k := FindMember(doc, path, p, ms, key);
      ghost var c := Below(path, k);
      if id == doc.nil {
        var isNew: bool := *;
        var _ := reader.builder.Save(isNew);
        var growOk: bool, poolOk: bool := *, *;
        id := PutNewMember(doc, path, p, ms, key, growOk, poolOk);
        if id == doc.nil {
          return Failed(NoMemory), more, kept;
        }
        NewMemberIsPut(v0, path, ms, key, Null);
      } else {
        PutNull(doc, c, In(id));
        OldMemberIsPut(v0, path, ms, k, key, Null);
        SamePlacesAbove(f, doc.forest, path, k);
      }
      ghost var g := doc.forest;
      status := ParseVariant(c, In(id), filter, limit);
      if status.Fine? {
        ghost var v := J.ParseVariant(old(reader.latch.rest), true, filter, limit, reader.builder.maxString).value;
        if k == |ms| {
          NewMemberIsPut(v0, path, ms, key, v);
        } else {
          OldMemberIsPut(v0, path, ms, k, key, v);
        }
        kept := [Member(key, v)];
        more := Filters.PutMember(ms, Member(key, v));
        OneIsPut(ms, Member(key, v));
        SamePlacesAbove(g, doc.forest, path, k);
        SamePlacesTwice(f, g, doc.forest, path);
        StillAt(doc, f, path, p);
      }
    }
  }

  lemma RootIsAt(doc: JsonDocument)
    requires doc.Whole()
    ensures At(doc, [], Root)
  {
  }

  lemma RootHolds(doc: JsonDocument)
    requires doc.Whole()
    ensures J.IsNumber(Held(doc)) <==> doc.data.Simple? && J.IsNumber(doc.data.value)
    ensures doc.data.Simple? ==> Held(doc) == doc.data.value
  {
    hide Forests.Valid, OwnerCounts.OwnersCount, Consistent, StringPools.Distinct;
  }

  lemma NothingPut()
    ensures PutAll([], []) == []
  {
  }

  lemma {:induction false} OneIsPut(ms: seq<Member>, m: Member)
    ensures PutAll(ms, [m]) == Filters.PutMember(ms, m)
  {
    assert [m][1..] == [];
  }

  lemma StringsAreStrings(s: bytes, maxString: nat)
    ensures var r := J.ParseString(s, maxString); r.Ok? ==> r.value.Str?
  {
  }

  lemma NumbersAreNumbers(s: bytes)
    ensures var r := J.ParseNumeric(s); r.Ok? ==> J.IsNumber(r.value)
  {
  }

  /** A path that leads where it led before. */
  lemma StillAt(doc: JsonDocument, f: Forest, path: Path, p: Place)
    requires doc.Whole() && PlaceAt(f, path) == Some(p) && SamePlaces(f, doc.forest, path)
    ensures At(doc, path, p)
  {
    hide Forests.Valid, OwnerCounts.OwnersCount, Consistent, StringPools.Distinct;
    SamePlace(f, doc.forest, path);
    PlaceIsThere(doc.forest, doc.nil, path);
  }
}

/** The JSON parser over a latch and a string builder, proved against Json. */
module JsonDeserializers {
  import opened Bytes
  import opened Document
  import opened Ascii
  import opened Numbers
  import opened Filters
  import opened Latches
  import opened Options
  import opened StringBuilders
  import opened Unicode
  import J = Json
  import opened JsonFacts

  class JsonDeserializer {
    const latch: Latch
    const builder: StringBuilder
    var foundSomething: bool

    ghost predicate Valid()
      reads this, latch, builder
    {
      latch.Valid() && builder.Valid()
    }

    constructor (input: bytes, maxString: nat)
      requires Doubles(INITIAL_CAPACITY, maxString)
      ensures Valid() && fresh(latch) && fresh(builder)
      ensures latch.rest == input && !foundSomething && builder.maxString == maxString
    {
      latch := new Latch(input);
      builder := new StringBuilder(maxString);
      foundSomething := false;
    }

    method Parse(filter: Filter, limit: nat) returns (status: Status, v: Value)
      requires Valid() && !foundSomething
      modifies this, latch, builder
      ensures Valid()
      ensures Agrees(status, v, latch.rest, J.Parse(old(latch.rest), filter, limit, builder.maxString))
    {
      status, v := ParseVariant(filter, limit);
      if status.Fine? && J.IsNumber(v) && latch.current != NUL {
        // trailing characters are not detected earlier
        status := Failed(InvalidInput);
      }
    }

    method Eat(c: byte) returns (eaten: bool)
      requires Valid()
      modifies latch
      ensures Valid()
      ensures eaten <==> Head(old(latch.rest)) == c
      ensures latch.rest == if eaten then Tail(old(latch.rest)) else old(latch.rest)
    {
      var current := latch.Current();
      if current != c { return false; }
      latch.Clear();
      return true;
    }

    method SkipSpaces() returns (status: Status)
      requires Valid()
      modifies this`foundSomething, latch
      ensures Valid()
      ensures Agrees(status, (), latch.rest, J.SkipSpaces(old(latch.rest), old(foundSomething)))
      ensures status.Fine? ==> foundSomething
      ensures old(foundSomething) ==> foundSomething
    {
      while true
        invariant Valid() && foundSomething == old(foundSomething)
        invariant J.SkipSpaces(old(latch.rest), foundSomething) == J.SkipSpaces(latch.rest, foundSomething)
        decreases |latch.rest|
      {
        var c := latch.Current();
        if c == NUL {
          return Failed(if foundSomething then IncompleteInput else EmptyInput);
        } else if IsSpace(c) {
          latch.Clear();
        } else {
          foundSomething := true;
          return Fine;
        }
      }
    }

    method SkipKeyword(word: bytes) returns (status: Status)
      requires Valid()
      modifies latch
      ensures Valid()
      ensures Agrees(status, (), latch.rest, J.Keyword(old(latch.rest), word))
    {
      var s := word;
      while s != []
        invariant Valid()
        invariant J.Keyword(old(latch.rest), word) == J.Keyword(latch.rest, s)
      {
        var c := latch.Current();
        if c == NUL { return Failed(IncompleteInput); }
        if s[0] != c { return Failed(InvalidInput); }
        s := s[1..];
        latch.Clear();
      }
      status := Fine;
    }

    method ParseVariant(filter: Filter, limit: nat) returns (status: Status, v: Value)
      requires Valid()
      modifies this, latch, builder
      ensures Valid() && (old(foundSomething) || status.Fine? ==> foundSomething)
      ensures Agrees(status, v, latch.rest,
                     J.ParseVariant(old(latch.rest), old(foundSomething), filter, limit, builder.maxString))
      ensures status.Fine? && J.IsNumber(v) ==> latch.loaded
      decreases |latch.rest|, 1
    {
      v := Null;
      status := SkipSpaces();
      if status.Failed? { return; }
      ghost var t := latch.rest;
      assert J.ParseVariant(old(latch.rest), old(foundSomething), filter, limit, builder.maxString)
          == J.ParseValue(t, filter, limit, builder.maxString);
      var c := latch.Current();
      if c == OPEN_ARRAY {
        if filter.AllowArray() {
          status, v := ParseArray(filter, limit);
        } else {
          status := SkipArray(limit);
        }
      } else if c == OPEN_OBJECT {
        if filter.AllowObject() {
          status, v := ParseObject(filter, limit);
        } else {
          status := SkipObject(limit);
        }
      } else if IsQuote(c) {
        if filter.AllowValue() {
          status, v := ParseStringValue();
        } else {
          status := SkipQuotedString();
        }
      } else if c == TRUE[0] {
        if filter.AllowValue() { v := Bool(true); }
        status := SkipKeyword(TRUE);
      } else if c == FALSE[0] {
        if filter.AllowValue() { v := Bool(false); }
        status := SkipKeyword(FALSE);
      } else if c == NULL[0] {
        status := SkipKeyword(NULL);
      } else if filter.AllowValue() {
        status, v := ParseNumericValue();
      } else {
        SkipNumericValue();
        status := Fine;
      }
    }

    method SkipVariant(limit: nat) returns (status: Status)
      requires Valid()
      modifies this`foundSomething, latch
      ensures Valid() && (old(foundSomething) || status.Fine? ==> foundSomething)
      ensures Agrees(status, (), latch.rest, J.SkipVariant(old(latch.rest), old(foundSomething), limit))
      decreases |latch.rest|, 1
    {
      status := SkipSpaces();
      if status.Failed? { return; }
      ghost var t := latch.rest;
      assert J.SkipVariant(old(latch.rest), old(foundSomething), limit) == J.SkipValue(t, limit);
      var c := latch.Current();
      if c == OPEN_ARRAY {
        status := SkipArray(limit);
      } else if c == OPEN_OBJECT {
        status := SkipObject(limit);
      } else if IsQuote(c) {
        status := SkipQuotedString();
      } else if c == TRUE[0] {
        status := SkipKeyword(TRUE);
      } else if c == FALSE[0] {
        status := SkipKeyword(FALSE);
      } else if c == NULL[0] {
        status := SkipKeyword(NULL);
      } else {
        SkipNumericValue();
        status := Fine;
      }
    }

    /** Steps 2 and 3 of the loops: whether the collection ends here. */
    method AtSeparator(close: byte) returns (status: Status, done: bool)
      requires Valid() && foundSomething
      modifies this`foundSomething, latch
      ensures Valid() && foundSomething
      ensures Agrees(status, done, latch.rest, J.Separator(old(latch.rest), close))
    {
      done := false;
      status := SkipSpaces();
      if status.Failed? { return; }
      done := Eat(close);
      if !done {
        var comma := Eat(COMMA);
        if !comma { status := Failed(InvalidInput); }
      }
    }

    method AtMemberSeparator() returns (status: Status, done: bool)
      requires Valid() && foundSomething
      modifies this`foundSomething, latch
      ensures Valid() && foundSomething
      ensures Agrees(status, done, latch.rest, J.MemberSeparator(old(latch.rest)))
    {
      status, done := AtSeparator(CLOSE_OBJECT);
      if status.Fine? && !done {
        status := SkipSpaces();
      }
    }

    method AtColon() returns (status: Status)
      requires Valid() && foundSomething
      modifies this`foundSomething, latch
      ensures Valid() && foundSomething
      ensures Agrees(status, (), latch.rest, J.Colon(old(latch.rest)))
    {
      status := SkipSpaces();
      if status.Failed? { return; }
      var colon := Eat(COLON);
      if !colon { status := Failed(InvalidInput); }
    }

    /** Step 1 of the loops: one value, kept if the filter allows it. */
    method ParseElement(filter: Filter, limit: nat) returns (status: Status, kept: seq<Value>)
      requires Valid() && foundSomething
      modifies this, latch, builder
      ensures Valid() && foundSomething
      ensures Agrees(status, kept, latch.rest, J.ParseElem(old(latch.rest), filter, limit, builder.maxString))
      decreases |latch.rest|, 2
    {
      kept := [];
      if filter.Allow() {
        var value;
        status, value := ParseVariant(filter, limit);
        kept := [value];
      } else {
        status := SkipVariant(limit);
      }
    }

    method ParseArray(filter: Filter, limit: nat) returns (status: Status, v: Value)
      requires Valid() && foundSomething && latch.loaded && Head(latch.rest) == OPEN_ARRAY
      modifies this, latch, builder
      ensures Valid() && foundSomething
      ensures Agrees(status, v, latch.rest, J.ParseArray(old(latch.rest), filter, limit, builder.maxString))
      ensures !J.IsNumber(v)
      decreases |latch.rest|, 0
    {
      v := Null;
      if limit == 0 { return Failed(TooDeep), v; }
      latch.Clear();
      status := SkipSpaces();
      if status.Failed? { return; }
      ghost var start := latch.rest;
      var done := Eat(CLOSE_ARRAY);
      if done { return Fine, Arr([]); }
      var elementFilter := filter.AtElement();
      var elems: seq<Value> := [];
      ghost var whole := J.ParseElems(start, elementFilter, limit - 1, builder.maxString);
      PrependNothing(whole);
      while !done
        invariant Valid() && foundSomething && |latch.rest| < old(|latch.rest|)
        invariant whole == if done then Ok(elems, latch.rest) else
                    Prepend(elems, J.ParseElems(latch.rest, elementFilter, limit - 1, builder.maxString))
        decreases !done, |latch.rest|
      {
        var kept;
        status, kept := ParseElement(elementFilter, limit - 1);
        if status.Failed? { return; }
        status, done := AtSeparator(CLOSE_ARRAY);
        if status.Failed? { return; }
        PrependMore(elems, kept, J.ParseElems(latch.rest, elementFilter, limit - 1, builder.maxString));
        elems := elems + kept;
      }
      status, v := Fine, Arr(elems);
    }

    method SkipArray(limit: nat) returns (status: Status)
      requires Valid() && foundSomething && latch.loaded && Head(latch.rest) == OPEN_ARRAY
      modifies this`foundSomething, latch
      ensures Valid() && foundSomething
      ensures Agrees(status, (), latch.rest, J.SkipValue(old(latch.rest), limit))
      decreases |latch.rest|, 0
    {
      if limit == 0 { return Failed(TooDeep); }
      latch.Clear();
      ghost var whole := J.SkipElems(latch.rest, limit - 1);
      assert whole == J.SkipValue(old(latch.rest), limit);
      var done := false;
      while !done
        invariant Valid() && foundSomething && |latch.rest| < old(|latch.rest|)
        invariant whole == if done then Ok((), latch.rest) else J.SkipElems(latch.rest, limit - 1)
        decreases !done, |latch.rest|
      {
        status := SkipVariant(limit - 1);
        if status.Failed? { return; }
        status, done := AtSeparator(CLOSE_ARRAY);
        if status.Failed? { return; }
      }
      status := Fine;
    }

    /** The member a key and its value make; a known key takes the new value. */
    method ParseMember(filter: Filter, limit: nat, known: seq<Member>)
      returns (status: Status, members: seq<Member>, ghost kept: seq<Member>)
      requires Valid() && foundSomething
      modifies this, latch, builder
      ensures Valid() && foundSomething
      ensures Agrees(status, kept, latch.rest, J.ParseMember(old(latch.rest), filter, limit, builder.maxString))
      ensures status.Fine? ==> members == PutAll(known, kept)
      decreases |latch.rest|, 3
    {
      members, kept := known, [];
      status := ParseKey();
      if status.Failed? { return; }
      var key := CString(builder.text);
      status := AtColon();
      if status.Failed? { return; }
      var memberFilter := filter.AtKey(key);
      if memberFilter.Allow() && !HasKey(known, key) {
        var isNew: bool := *;
        var _ := builder.Save(isNew);
      }
      var value;
      status, value := ParseElement(memberFilter, limit);
      if status.Fine? && value != [] {
        kept := [Member(key, value[0])];
        members := PutMember(known, Member(key, value[0]));
      }
    }

    /** The loop of parseObject. */
    method ParseMembers(filter: Filter, limit: nat)
      returns (status: Status, members: seq<Member>, ghost raw: seq<Member>)
      requires Valid() && foundSomething
      modifies this, latch, builder
      ensures Valid() && foundSomething
      ensures Agrees(status, raw, latch.rest, J.ParseMembers(old(latch.rest), filter, limit, builder.maxString))
      ensures members == PutAll([], raw)
      decreases |latch.rest|, 4
    {
      members, raw := [], [];
      var done := false;
      ghost var whole := J.ParseMembers(latch.rest, filter, limit, builder.maxString);
      PrependNothing(whole);
      while !done
        invariant Valid() && foundSomething && |latch.rest| <= old(|latch.rest|)
        invariant members == PutAll([], raw)
        invariant whole == if done then Ok(raw, latch.rest) else
                    Prepend(raw, J.ParseMembers(latch.rest, filter, limit, builder.maxString))
        decreases !done, |latch.rest|
      {
        ghost var kept: seq<Member>;
        var more;
        status, more, kept := ParseMember(filter, limit, members);
        if status.Failed? { return; }
        PutAllMore([], raw, kept);
        status, done := AtMemberSeparator();
        if status.Failed? { return; }
        PrependMore(raw, kept, J.ParseMembers(latch.rest, filter, limit, builder.maxString));
        members, raw := more, raw + kept;
      }
      status := Fine;
    }

    method ParseObject(filter: Filter, limit: nat) returns (status: Status, v: Value)
      requires Valid() && foundSomething && latch.loaded && Head(latch.rest) == OPEN_OBJECT
      modifies this, latch, builder
      ensures Valid() && foundSomething
      ensures Agrees(status, v, latch.rest, J.ParseObject(old(latch.rest), filter, limit, builder.maxString))
      ensures !J.IsNumber(v)
      decreases |latch.rest|, 0
    {
      v := Null;
      if limit == 0 { return Failed(TooDeep), v; }
      latch.Clear();
      status := SkipSpaces();
      if status.Failed? { return; }
      var done := Eat(CLOSE_OBJECT);
      if done { return Fine, Obj([]); }
      var members;
      ghost var raw;
      status, members, raw := ParseMembers(filter, limit - 1);
      if status.Fine? { v := Obj(members); }
    }

    /** The loop of skipObject. */
    method SkipMembers(limit: nat) returns (status: Status)
      requires Valid() && foundSomething
      modifies this`foundSomething, latch
      ensures Valid() && foundSomething
      ensures Agrees(status, (), latch.rest, J.SkipMembers(old(latch.rest), limit))
      decreases |latch.rest|, 2
    {
      var done := false;
      while !done
        invariant Valid() && foundSomething && |latch.rest| <= old(|latch.rest|)
        invariant J.SkipMembers(old(latch.rest), limit)
                  == if done then Ok((), latch.rest) else J.SkipMembers(latch.rest, limit)
        decreases !done, |latch.rest|
      {
        status := SkipKey();
        if status.Failed? { return; }
        status := AtColon();
        if status.Failed? { return; }
        status := SkipVariant(limit);
        if status.Failed? { return; }
        status, done := AtMemberSeparator();
        if status.Failed? { return; }
      }
      status := Fine;
    }

    method SkipObject(limit: nat) returns (status: Status)
      requires Valid() && foundSomething && latch.loaded && Head(latch.rest) == OPEN_OBJECT
      modifies this`foundSomething, latch
      ensures Valid() && foundSomething
      ensures Agrees(status, (), latch.rest, J.SkipValue(old(latch.rest), limit))
      decreases |latch.rest|, 0
    {
      if limit == 0 { return Failed(TooDeep); }
      latch.Clear();
      status := SkipSpaces();
      if status.Failed? { return; }
      var done := Eat(CLOSE_OBJECT);
      if done { return Fine; }
      status := SkipMembers(limit - 1);
    }

    method ParseKey() returns (status: Status)
      requires Valid()
      modifies latch, builder
      ensures Valid()
      ensures
        var r := J.ParseKey(old(latch.rest), builder.maxString);
        && status == (if r.Ok? then Fine else Failed(r.code))
        && (r.Ok? ==> latch.rest == r.rest && builder.Content() == Some(r.value))
    {
      builder.StartString();
      var c := latch.Current();
      if IsQuote(c) {
        status := ParseQuotedString();
      } else {
        status := ParseNonQuotedString();
      }
    }

    method ParseStringValue() returns (status: Status, v: Value)
      requires Valid() && IsQuote(Head(latch.rest))
      modifies latch, builder
      ensures Valid()
      ensures Agrees(status, v, latch.rest, J.ParseString(old(latch.rest), builder.maxString))
      ensures !J.IsNumber(v)
    {
      v := Null;
      builder.StartString();
      status := ParseQuotedString();
      if status.Failed? { return; }
      var isNew: bool := *;
      var s := builder.Save(isNew);
      v := Str(s);
    }

    method ParseQuotedString() returns (status: Status)
      requires Valid() && IsQuote(Head(latch.rest)) && builder.Content() == Some([])
      modifies latch, builder
      ensures Valid()
      ensures
        var r := J.ParseQuoted(old(latch.rest), builder.maxString);
        && status == (if r.Ok? then Fine else Failed(r.code))
        && (r.Ok? ==> latch.rest == r.rest && builder.Content() == Some(r.value))
    {
      var codepoint := new Codepoint();
      var stopChar := latch.Current();
      latch.Clear();
      ghost var whole := J.StringText(latch.rest, stopChar, 0, []);
      ghost var text: bytes := [];
      builder.NotExtended();
      while true
        invariant Valid() && codepoint.highSurrogate < 0x400
        invariant fresh(codepoint)
        invariant whole == J.StringText(latch.rest, stopChar, codepoint.highSurrogate, text)
        invariant builder.Content() == Extended(Some([]), text, builder.maxString)
        decreases |latch.rest|
      {
        ghost var added: bytes := [];
        var c := latch.Current();
        latch.Clear();
        if c == stopChar { break; }
        if c == NUL { return Failed(IncompleteInput); }
        if c == BACKSLASH {
          status, added := ParseEscape(codepoint);
          if status.Failed? { return; }
        } else {
          builder.Append(c);
          added := [c];
        }
        ExtendedTwice(Some([]), text, added, builder.maxString);
        text := text + added;
      }
      assert [] + text == text;
      status := if builder.node.None? then Failed(NoMemory) else Fine;
    }

    /** A high surrogate alone adds nothing. */
    method AppendCodeunit(codepoint: Codepoint, codeunit: nat)
      requires Valid() && codepoint.highSurrogate < 0x400 && codeunit < 0x1_0000
      modifies builder, codepoint
      ensures Valid()
      ensures codepoint.highSurrogate == J.NextHigh(codeunit, old(codepoint.highSurrogate)) < 0x400
      ensures builder.Content()
              == Extended(old(builder.Content()), J.Unit(codeunit, old(codepoint.highSurrogate)), builder.maxString)
    {
      builder.NotExtended();
      var complete := codepoint.Append(codeunit);
      if complete {
        EncodeCodepoint(codepoint.codepoint, builder);
      }
    }

    /** Appends what the characters behind a backslash stand for. */
    method ParseEscape(codepoint: Codepoint) returns (status: Status, ghost added: bytes)
      requires Valid() && codepoint.highSurrogate < 0x400
      modifies latch, builder, codepoint
      ensures Valid() && codepoint.highSurrogate < 0x400
      ensures Agrees(status, (added, codepoint.highSurrogate), latch.rest,
                     J.Escape(old(latch.rest), old(codepoint.highSurrogate)))
      ensures status.Fine? ==> builder.Content() == Extended(old(builder.Content()), added, builder.maxString)
    {
      added := [];
      var c := latch.Current();
      if c == NUL { return Failed(IncompleteInput), added; }
      if c == 0x75 {
        latch.Clear();
        var codeunit;
        status, codeunit := ParseHex4();
        if status.Failed? { return; }
        AppendCodeunit(codepoint, codeunit);
        added := J.Unit(codeunit, old(codepoint.highSurrogate));
      } else {
        c := FindUnescape(c);
        if c == NUL { return Failed(InvalidInput), added; }
        latch.Clear();
        builder.Append(c);
        status, added := Fine, [c];
      }
    }

    method ParseNonQuotedString() returns (status: Status)
      requires Valid() && builder.Content() == Some([])
      modifies latch, builder
      ensures Valid()
      ensures
        var r := J.ParseNonQuoted(old(latch.rest), builder.maxString);
        && status == (if r.Ok? then Fine else Failed(r.code))
        && (r.Ok? ==> latch.rest == r.rest && builder.Content() == Some(r.value))
    {
      var c := latch.Current();
      if !CanBeInNonQuotedString(c) { return Failed(InvalidInput); }
      ghost var text: bytes := [];
      builder.NotExtended();
      while CanBeInNonQuotedString(c)
        invariant Valid() && c == Head(latch.rest) && latch.loaded
        invariant J.NonQuotedText(old(latch.rest), []) == J.NonQuotedText(latch.rest, text)
        invariant builder.Content() == Extended(Some([]), text, builder.maxString)
        decreases |latch.rest|
      {
        ExtendedTwice(Some([]), text, [c], builder.maxString);
        latch.Clear();
        builder.Append(c);
        text := text + [c];
        c := latch.Current();
      }
      assert [] + text == text;
      status := if builder.node.None? then Failed(NoMemory) else Fine;
    }

    method SkipKey() returns (status: Status)
      requires Valid()
      modifies latch
      ensures Valid()
      ensures Agrees(status, (), latch.rest, J.SkipKey(old(latch.rest)))
    {
      var c := latch.Current();
      if IsQuote(c) {
        status := SkipQuotedString();
      } else {
        SkipNonQuotedString();
        status := Fine;
      }
    }

    method SkipQuotedString() returns (status: Status)
      requires Valid()
      modifies latch
      ensures Valid()
      ensures Agrees(status, (), latch.rest, J.SkipQuoted(old(latch.rest)))
    {
      var stopChar := latch.Current();
      latch.Clear();
      while true
        invariant Valid()
        invariant J.SkipQuoted(old(latch.rest)) == J.SkipString(latch.rest, stopChar)
        decreases |latch.rest|
      {
        var c := latch.Current();
        latch.Clear();
        if c == stopChar { break; }
        if c == NUL { return Failed(IncompleteInput); }
        if c == BACKSLASH {
          var next := latch.Current();
          if next != NUL { latch.Clear(); }
        }
      }
      status := Fine;
    }

    method SkipNonQuotedString()
      requires Valid()
      modifies latch
      ensures Valid() && latch.loaded
      ensures latch.rest == J.SkipNonQuoted(old(latch.rest))
    {
      var c := latch.Current();
      while CanBeInNonQuotedString(c)
        invariant Valid() && c == Head(latch.rest) && latch.loaded
        invariant J.SkipNonQuoted(old(latch.rest)) == J.SkipNonQuoted(latch.rest)
        decreases |latch.rest|
      {
        latch.Clear();
        c := latch.Current();
      }
    }

    method ParseNumericValue() returns (status: Status, v: Value)
      requires Valid()
      modifies latch
      ensures Valid() && latch.loaded
      ensures Agrees(status, v, latch.rest, J.ParseNumeric(old(latch.rest)))
    {
      v := Null;
      var buffer: bytes := [];
      var c := latch.Current();
      while CanBeInNumber(c) && |buffer| < 63
        invariant Valid() && c == Head(latch.rest) && latch.loaded && |buffer| <= 63
        invariant J.NumberText(old(latch.rest), []) == J.NumberText(latch.rest, buffer)
        decreases |latch.rest|
      {
        latch.Clear();
        buffer := buffer + [c];
        c := latch.Current();
      }
      match ParseNumber(buffer) {
        case NotANumber => status := Failed(InvalidInput);
        case Number(value) => status, v := Fine, value;
      }
    }

    method SkipNumericValue()
      requires Valid()
      modifies latch
      ensures Valid()
      ensures latch.rest == J.SkipNumeric(old(latch.rest))
    {
      var c := latch.Current();
      while CanBeInNumber(c)
        invariant Valid() && c == Head(latch.rest) && latch.loaded
        invariant J.SkipNumeric(old(latch.rest)) == J.SkipNumeric(latch.rest)
        decreases |latch.rest|
      {
        latch.Clear();
        c := latch.Current();
      }
    }

    method ParseHex4() returns (status: Status, result: nat)
      requires Valid()
      modifies latch
      ensures Valid()
      ensures Agrees(status, result, latch.rest, J.ParseHex(old(latch.rest), 4, 0))
      ensures result < 0x1_0000
    {
      result := 0;
      for i := 0 to 4
        invariant Valid() && result < 0x1_0000
        invariant J.ParseHex(old(latch.rest), 4, 0) == J.ParseHex(latch.rest, 4 - i, result)
      {
        var digit := latch.Current();
        if digit == NUL { return Failed(IncompleteInput), result; }
        var value := DecodeHex(digit);
        if value > 0x0F { return Failed(InvalidInput), result; }
        result := (result * 0x10 + value) % 0x1_0000;
        latch.Clear();
      }
      status := Fine;
    }
  }
}

/** Members put in one at a time and members put in all at once. */
module JsonFacts {
  import opened Document
  import opened Filters

  lemma {:induction false} PutAllMore(ms: seq<Member>, added: seq<Member>, more: seq<Member>)
    ensures PutAll(ms, added + more) == PutAll(PutAll(ms, added), more)
    decreases added
  {
    if added == [] {
      assert added + more == more;
    } else {
      assert (added + more)[1..] == added[1..] + more;
      PutAllMore(PutMember(ms, added[0]), added[1..], more);
    }
  }
}

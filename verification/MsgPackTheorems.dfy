/** Decoding undoes encoding, the nesting limit is exact, and no encoding is a
    strict prefix of another. */
module MsgPackTheorems {
  import opened Bytes
  import opened Document
  import opened MsgPack

  lemma SpanValues()
    ensures Span(1) == 0x100 && Span(2) == 0x10000 && Span(4) == 0x1_0000_0000
    ensures Span(8) == 0x1_0000_0000_0000_0000
  {
    assert Span(3) == 256 * Span(2);
    assert Span(5) == 256 * Span(4);
    assert Span(6) == 256 * Span(5);
    assert Span(7) == 256 * Span(6);
  }

  lemma ReadsBack(n: nat, k: nat, tail: bytes)
    requires n < Span(k)
    ensures ReadUnsigned(BigEndian(n, k) + tail, k) == Ok(n, tail)
  {
    BigEndianRoundTrip(n, k);
    assert (BigEndian(n, k) + tail)[..k] == BigEndian(n, k);
  }

  lemma OneByte(n: byte)
    ensures BigEndian(n, 1) == [n]
  {
    assert BigEndian(n, 1) == BigEndian(n / 256, 0) + [n % 256];
  }

  lemma CodedRoundTrip(code: byte, i: int, k: nat, signed: bool, tail: bytes, limit: nat, maxString: nat)
    requires FormatOf(code) == Integer(k, signed)
    requires if signed then -Span(k) <= 2 * i < Span(k) else 0 <= i < Span(k)
    ensures Decode([code] + BigEndian(ToUnsigned(i, k), k) + tail, limit, maxString) == Ok(Int(i), tail)
  {
    var n := ToUnsigned(i, k);
    ReadsBack(n, k, tail);
    var s := [code] + BigEndian(n, k) + tail;
    assert s[0] == code && s[1..] == BigEndian(n, k) + tail;
    assert ReadInt(s[1..], k, signed) == Ok(Int(i), tail);
  }

  lemma IntegerRoundTrip(i: int, tail: bytes, limit: nat, maxString: nat)
    requires INT_MIN <= i <= UINT_MAX
    ensures Decode(EncodeInteger(i) + tail, limit, maxString) == Ok(Int(i), tail)
  {
    SpanValues();
    if i > 0xFFFF_FFFF {
      CodedRoundTrip(0xCF, i, 8, false, tail, limit, maxString);
    } else if i > 0xFFFF {
      CodedRoundTrip(0xCE, i, 4, false, tail, limit, maxString);
    } else if i > 0xFF {
      CodedRoundTrip(0xCD, i, 2, false, tail, limit, maxString);
    } else if i > 0x7F {
      CodedRoundTrip(0xCC, i, 1, false, tail, limit, maxString);
    } else if i >= -0x20 {
      OneByte(ToUnsigned(i, 1));
      var s := EncodeInteger(i) + tail;
      assert s == [ToUnsigned(i, 1)] + tail && s[1..] == tail;
    } else if i >= -0x80 {
      CodedRoundTrip(0xD0, i, 1, true, tail, limit, maxString);
    } else if i >= -0x8000 {
      CodedRoundTrip(0xD1, i, 2, true, tail, limit, maxString);
    } else if i >= -0x8000_0000 {
      CodedRoundTrip(0xD2, i, 4, true, tail, limit, maxString);
    } else {
      CodedRoundTrip(0xD3, i, 8, true, tail, limit, maxString);
    }
  }

  /** A size announced in the header is the size that is read. */
  ghost predicate Announces(header: bytes, n: nat, size: Size)
    requires header != []
  {
    match size
    case Given(m) => header == [header[0]] && m == n
    case Follows(width) => n < Span(width) && header == [header[0]] + BigEndian(n, width)
  }

  lemma SizeRead(header: bytes, n: nat, size: Size, tail: bytes)
    requires header != [] && Announces(header, n, size)
    ensures (header + tail)[0] == header[0]
    ensures ReadSize((header + tail)[1..], size) == Ok(n, tail)
  {
    match size {
      case Given(_) => assert (header + tail)[1..] == tail;
      case Follows(width) =>
        assert (header + tail)[1..] == BigEndian(n, width) + tail;
        ReadsBack(n, width, tail);
    }
  }

  lemma StringHeaderRead(n: nat) returns (size: Size)
    requires n < Span(4)
    ensures Announces(StringHeader(n), n, size)
    ensures FormatOf(StringHeader(n)[0]) == Text(size)
  {
    SpanValues();
    if n < 0x20 {
      size := Given(n);
    } else {
      size := Follows(if n < 0x100 then 1 else if n < 0x10000 then 2 else 4);
    }
  }

  lemma CollectionHeaderRead(n: nat, fix: byte, code: byte) returns (size: Size)
    requires n < Span(4)
    requires (fix, code) == (0x90, 0xDC) || (fix, code) == (0x80, 0xDE)
    ensures Announces(CollectionHeader(n, fix, code), n, size)
    ensures FormatOf(CollectionHeader(n, fix, code)[0]) == if fix == 0x90 then Array(size) else Map(size)
  {
    SpanValues();
    if n < 0x10 {
      size := Given(n);
    } else {
      size := Follows(if n < 0x10000 then 2 else 4);
    }
  }

  /** Both readers of strings, for keys and for values, undo StringHeader. */
  lemma StringRoundTrip(t: bytes, tail: bytes, limit: nat, maxString: nat)
    requires |t| <= maxString < Span(4)
    ensures ReadKey(StringHeader(|t|) + t + tail, maxString) == Ok(t, tail)
    ensures Decode(StringHeader(|t|) + t + tail, limit, maxString) == Ok(Str(t), tail)
  {
    var size := StringHeaderRead(|t|);
    assert StringHeader(|t|) + t + tail == StringHeader(|t|) + (t + tail);
    SizeRead(StringHeader(|t|), |t|, size, t + tail);
    assert (t + tail)[..|t|] == t && (t + tail)[|t|..] == tail;
  }

  lemma DecodeArrayOf(s: bytes, size: Size, limit: nat, maxString: nat)
    requires s != [] && FormatOf(s[0]) == Array(size)
    ensures Decode(s, limit, maxString) == DecodeArray(ReadSize(s[1..], size), limit, maxString)
  {
  }

  lemma DecodeMapOf(s: bytes, size: Size, limit: nat, maxString: nat)
    requires s != [] && FormatOf(s[0]) == Map(size)
    ensures Decode(s, limit, maxString) == DecodeObject(ReadSize(s[1..], size), limit, maxString)
  {
  }

  /** Decoding an encoding followed by anything gives the document back and
      stops at its end, exactly when the nesting limit covers the document. */
  lemma {:induction false} RoundTrip(v: Value, tail: bytes, limit: nat, maxString: nat)
    requires maxString < Span(4)
    requires Storable(v, maxString)
    ensures Decode(Encode(v, maxString) + tail, limit, maxString)
            == if Nesting(v) <= limit then Ok(v, tail) else Err(TooDeep)
    decreases v, 2
  {
    match v {
      case Null => assert (Encode(v, maxString) + tail)[1..] == tail;
      case Bool(_) => assert (Encode(v, maxString) + tail)[1..] == tail;
      case Int(i) => IntegerRoundTrip(i, tail, limit, maxString);
      case Str(t) => StringRoundTrip(t, tail, limit, maxString);
      case Arr(elems) => ArrayRoundTrip(elems, tail, limit, maxString);
      case Obj(members) => ObjectRoundTrip(members, tail, limit, maxString);
    }
  }

  lemma {:induction false} ArrayRoundTrip(elems: seq<Value>, tail: bytes, limit: nat, maxString: nat)
    requires maxString < Span(4)
    requires Storable(Arr(elems), maxString)
    ensures Decode(Encode(Arr(elems), maxString) + tail, limit, maxString)
            == if Nesting(Arr(elems)) <= limit then Ok(Arr(elems), tail) else Err(TooDeep)
    decreases elems, 1
  {
    var header, body := CollectionHeader(|elems|, 0x90, 0xDC), EncodeElems(elems, maxString);
    var s := Encode(Arr(elems), maxString) + tail;
    assert s == header + (body + tail);
    var size := CollectionHeaderRead(|elems|, 0x90, 0xDC);
    SizeRead(header, |elems|, size, body + tail);
    DecodeArrayOf(s, size, limit, maxString);
    if limit > 0 { ElemsRoundTrip(elems, tail, limit - 1, maxString); }
  }

  lemma {:induction false} ObjectRoundTrip(members: seq<Member>, tail: bytes, limit: nat, maxString: nat)
    requires maxString < Span(4)
    requires Storable(Obj(members), maxString)
    ensures Decode(Encode(Obj(members), maxString) + tail, limit, maxString)
            == if Nesting(Obj(members)) <= limit then Ok(Obj(members), tail) else Err(TooDeep)
    decreases members, 1
  {
    var header, body := CollectionHeader(|members|, 0x80, 0xDE), EncodeMembers(members, maxString);
    var s := Encode(Obj(members), maxString) + tail;
    assert s == header + (body + tail);
    var size := CollectionHeaderRead(|members|, 0x80, 0xDE);
    SizeRead(header, |members|, size, body + tail);
    DecodeMapOf(s, size, limit, maxString);
    if limit > 0 { MembersRoundTrip(members, tail, limit - 1, maxString); }
  }

  lemma {:induction false} ElemsRoundTrip(vs: seq<Value>, tail: bytes, limit: nat, maxString: nat)
    requires maxString < Span(4)
    requires StorableElems(vs, maxString)
    ensures DecodeElems(EncodeElems(vs, maxString) + tail, |vs|, limit, maxString)
            == if NestingOfElems(vs) <= limit then Ok(vs, tail) else Err(TooDeep)
    decreases vs, 0
  {
    if vs == [] {
      assert EncodeElems(vs, maxString) + tail == tail;
    } else {
      var rest := EncodeElems(vs[1..], maxString) + tail;
      assert EncodeElems(vs, maxString) + tail == Encode(vs[0], maxString) + rest;
      RoundTrip(vs[0], rest, limit, maxString);
      ElemsRoundTrip(vs[1..], tail, limit, maxString);
      assert vs == [vs[0]] + vs[1..];
    }
  }

  lemma {:induction false} MembersRoundTrip(ms: seq<Member>, tail: bytes, limit: nat, maxString: nat)
    requires maxString < Span(4)
    requires StorableMembers(ms, maxString)
    ensures DecodeMembers(EncodeMembers(ms, maxString) + tail, |ms|, limit, maxString)
            == if NestingOfMembers(ms) <= limit then Ok(ms, tail) else Err(TooDeep)
    decreases ms, 0
  {
    if ms == [] {
      assert EncodeMembers(ms, maxString) + tail == tail;
    } else {
      var rest := EncodeMembers(ms[1..], maxString) + tail;
      assert EncodeMembers(ms, maxString) + tail == EncodeMember(ms[0], maxString) + rest;
      MemberRoundTrip(ms[0], rest, limit, maxString);
      MembersRoundTrip(ms[1..], tail, limit, maxString);
      assert ms == [ms[0]] + ms[1..];
    }
  }

  lemma {:induction false} MemberRoundTrip(m: Member, tail: bytes, limit: nat, maxString: nat)
    requires maxString < Span(4)
    requires StorableMember(m, maxString)
    ensures DecodeMember(EncodeMember(m, maxString) + tail, limit, maxString)
            == if Nesting(m.value) <= limit then Ok(m, tail) else Err(TooDeep)
    decreases m, 3
  {
    var body := Encode(m.value, maxString) + tail;
    assert EncodeMember(m, maxString) + tail == StringHeader(|m.key|) + m.key + body;
    StringRoundTrip(m.key, body, limit, maxString);
    RoundTrip(m.value, tail, limit, maxString);
  }

  /** Distinct documents have encodings neither of which starts the other. */
  lemma PrefixFree(v: Value, w: Value, tail: bytes, maxString: nat)
    requires maxString < Span(4)
    requires Storable(v, maxString) && Storable(w, maxString)
    requires Encode(v, maxString) + tail == Encode(w, maxString)
    ensures v == w && tail == []
  {
    var limit := Max(Nesting(v), Nesting(w));
    RoundTrip(v, tail, limit, maxString);
    RoundTrip(w, [], limit, maxString);
    assert Encode(w, maxString) + [] == Encode(w, maxString);
  }

  // ----- input that arrives in pieces -----

  /** The result of reading s, when q follows it. */
  function Followed<T>(r: Result<T>, q: bytes): Result<T> {
    match r
    case Ok(v, rest) => Ok(v, rest + q)
    case Err(e) => Err(e)
  }

  /** More input changes a result only if that result was IncompleteInput. */
  ghost predicate Extends<T>(now: Result<T>, later: Result<T>, q: bytes) {
    now == Err(IncompleteInput) || later == Followed(now, q)
  }

  lemma SizeExtends(s: bytes, q: bytes, size: Size)
    ensures Extends(ReadSize(s, size), ReadSize(s + q, size), q)
  {
    if size.Follows? && |s| >= size.width {
      assert (s + q)[..size.width] == s[..size.width];
      assert (s + q)[size.width..] == s[size.width..] + q;
    }
  }

  lemma TextExtends(now: Result<nat>, later: Result<nat>, q: bytes, maxString: nat)
    requires Extends(now, later, q)
    ensures Extends(ReadText(now, maxString), ReadText(later, maxString), q)
  {
    if now.Ok? && |now.rest| >= now.value {
      assert (now.rest + q)[..now.value] == now.rest[..now.value];
      assert (now.rest + q)[now.value..] == now.rest[now.value..] + q;
    }
  }

  lemma KeyExtends(s: bytes, q: bytes, maxString: nat)
    ensures Extends(ReadKey(s, maxString), ReadKey(s + q, maxString), q)
  {
    if s != [] {
      assert (s + q)[1..] == s[1..] + q;
      var format := FormatOf(s[0]);
      if format.Text? {
        SizeExtends(s[1..], q, format.size);
        TextExtends(ReadSize(s[1..], format.size), ReadSize(s[1..] + q, format.size), q, maxString);
      }
    }
  }

  lemma ScalarExtends(s: bytes, q: bytes, size: Size, extra: nat, width: nat, signed: bool)
    ensures Extends(Skip(s, size, extra), Skip(s + q, size, extra), q)
    ensures Extends(ReadFloat(s, width), ReadFloat(s + q, width), q)
    ensures Extends(ReadInt(s, width, signed), ReadInt(s + q, width, signed), q)
  {
    SizeExtends(s, q, size);
    SizeExtends(s, q, Follows(width));
    if |s| >= width {
      assert (s + q)[..width] == s[..width] && (s + q)[width..] == s[width..] + q;
    }
    var r := ReadSize(s, size);
    if r.Ok? {
      var n := (r.value + extra) % Span(4);
      if |r.rest| >= n { assert (r.rest + q)[n..] == r.rest[n..] + q; }
    }
  }

  /** The decoder never changes its mind: for any input, a value or an error
      other than IncompleteInput stays the answer whatever bytes follow. */
  lemma {:induction false} DecodeExtends(s: bytes, q: bytes, limit: nat, maxString: nat)
    ensures Extends(Decode(s, limit, maxString), Decode(s + q, limit, maxString), q)
    decreases |s|, 0, 0
  {
    if s != [] {
      var t, format := s[1..], FormatOf(s[0]);
      assert (s + q)[1..] == t + q;
      match format {
        case Constant(_) =>
        case NeverUsed =>
        case Ignored(size, extra) => ScalarExtends(t, q, size, extra, 0, false);
        case Floating(width) => ScalarExtends(t, q, Given(0), 0, width, false);
        case Integer(width, signed) => ScalarExtends(t, q, Given(0), 0, width, signed);
        case Text(size) =>
          SizeExtends(t, q, size);
          TextExtends(ReadSize(t, size), ReadSize(t + q, size), q, maxString);
        case Array(size) =>
          SizeExtends(t, q, size);
          var r := ReadSize(t, size);
          if r.Ok? && limit > 0 { ElemsExtend(r.rest, q, r.value, limit - 1, maxString); }
        case Map(size) =>
          SizeExtends(t, q, size);
          var r := ReadSize(t, size);
          if r.Ok? && limit > 0 { MembersExtend(r.rest, q, r.value, limit - 1, maxString); }
      }
    }
  }

  lemma {:induction false} ElemsExtend(s: bytes, q: bytes, n: nat, limit: nat, maxString: nat)
    ensures Extends(DecodeElems(s, n, limit, maxString), DecodeElems(s + q, n, limit, maxString), q)
    decreases |s|, 1, n
  {
    if n > 0 {
      DecodeExtends(s, q, limit, maxString);
      var r := Decode(s, limit, maxString);
      if r.Ok? { ElemsExtend(r.rest, q, n - 1, limit, maxString); }
    }
  }

  lemma {:induction false} MembersExtend(s: bytes, q: bytes, n: nat, limit: nat, maxString: nat)
    ensures Extends(DecodeMembers(s, n, limit, maxString), DecodeMembers(s + q, n, limit, maxString), q)
    decreases |s|, 1, n
  {
    if n > 0 {
      MemberExtends(s, q, limit, maxString);
      var r := DecodeMember(s, limit, maxString);
      if r.Ok? { MembersExtend(r.rest, q, n - 1, limit, maxString); }
    }
  }

  lemma {:induction false} MemberExtends(s: bytes, q: bytes, limit: nat, maxString: nat)
    ensures Extends(DecodeMember(s, limit, maxString), DecodeMember(s + q, limit, maxString), q)
    decreases |s|, 0, 0
  {
    KeyExtends(s, q, maxString);
    var r := ReadKey(s, maxString);
    if r.Ok? { DecodeExtends(r.rest, q, limit, maxString); }
  }

  /** Every strict prefix of an encoding is rejected as incomplete. */
  lemma TruncatedIsIncomplete(v: Value, p: bytes, q: bytes, limit: nat, maxString: nat)
    requires maxString < Span(4)
    requires Storable(v, maxString) && Nesting(v) <= limit
    requires Encode(v, maxString) == p + q && q != []
    ensures Parse(p, limit, maxString) == Err(if p == [] then EmptyInput else IncompleteInput)
  {
    RoundTrip(v, [], limit, maxString);
    assert p + q + [] == p + q;
    DecodeExtends(p, q, limit, maxString);
  }
}

/** The bytes of MessagePack, by the table of its specification, and that no
    other encoding of a document is shorter than the one written. */
module MsgPackFormats {
  import opened Bytes
  import opened Document
  import opened MsgPack
  import opened MsgPackTheorems

  // What is read.

  /** The codes from 0xC0 to 0xDF, in their order. */
  const CODES: seq<Format> := [
    Constant(Null), NeverUsed, Constant(Bool(false)), Constant(Bool(true)),
    Ignored(Follows(1), 0), Ignored(Follows(2), 0), Ignored(Follows(4), 0),
    Ignored(Follows(1), 1), Ignored(Follows(2), 1), Ignored(Follows(4), 1),
    Floating(4), Floating(8),
    Integer(1, false), Integer(2, false), Integer(4, false), Integer(8, false),
    Integer(1, true), Integer(2, true), Integer(4, true), Integer(8, true),
    Ignored(Given(1), 1), Ignored(Given(2), 1), Ignored(Given(4), 1), Ignored(Given(8), 1), Ignored(Given(16), 1),
    Text(Follows(1)), Text(Follows(2)), Text(Follows(4)),
    Array(Follows(2)), Array(Follows(4)), Map(Follows(2)), Map(Follows(4))]

  lemma LowTableSays(code: byte)
    requires 0xC0 <= code < 0xD0
    ensures FormatOf(code) == CODES[code - 0xC0]
  {
  }

  lemma HighTableSays(code: byte)
    requires 0xD0 <= code < 0xE0
    ensures FormatOf(code) == CODES[code - 0xC0]
  {
  }

  /** The first bits of a code tell its family. */
  lemma CodesSay(code: byte)
    ensures code / 0x80 == 0 ==> FormatOf(code) == Constant(Int(code))
    ensures code / 0x10 == 8 ==> FormatOf(code) == Map(Given(code % 0x10))
    ensures code / 0x10 == 9 ==> FormatOf(code) == Array(Given(code % 0x10))
    ensures code / 0x20 == 5 ==> FormatOf(code) == Text(Given(code % 0x20))
    ensures code / 0x20 == 6 ==> FormatOf(code) == CODES[code - 0xC0]
    ensures code / 0x20 == 7 ==> FormatOf(code) == Constant(Int(code as int - 0x100))
  {
    if code / 0x20 == 6 {
      if code < 0xD0 { LowTableSays(code); } else { HighTableSays(code); }
      hide FormatOf;
    } else {
      assert Span(1) == 0x100;
    }
  }

  /** The number in the first bytes, the highest first, and how many numbers there are. */
  function Places(t: bytes, k: nat): (n: int)
    requires k in {1, 2, 4, 8} && |t| >= k
  {
    if k == 1 then t[0]
    else if k == 2 then 0x100 * (t[0] as int) + t[1]
    else if k == 4 then
      0x100_0000 * (t[0] as int) + 0x1_0000 * (t[1] as int) + 0x100 * (t[2] as int) + t[3]
    else
      0x100_0000_0000_0000 * (t[0] as int) + 0x1_0000_0000_0000 * (t[1] as int) + 0x100_0000_0000 * (t[2] as int)
      + 0x1_0000_0000 * (t[3] as int) + 0x100_0000 * (t[4] as int) + 0x1_0000 * (t[5] as int)
      + 0x100 * (t[6] as int) + t[7]
  }

  const NUMBERS: map<nat, int> := map[1 := 0x100, 2 := 0x1_0000, 4 := 0x1_0000_0000, 8 := 0x1_0000_0000_0000_0000]

  lemma PlacesRead(t: bytes, k: nat)
    requires k in NUMBERS && |t| >= k
    ensures ReadUnsigned(t, k) == Ok(Places(t, k), t[k..])
    ensures Span(k) == NUMBERS[k]
    ensures 2 * Places(t, k) >= NUMBERS[k] <==> t[0] >= 0x80
  {
    SpanValues();
    if k == 1 { OneByteRead(t[..1]); }
    else if k == 2 { TwoBytesRead(t[..2]); }
    else if k == 4 { FourBytesRead(t[..4]); }
    else { EightBytesRead(t[..8]); }
    hide FromBigEndian;
  }

  /** How many bytes of an integer stand behind its code. */
  const WIDTHS: seq<nat> := [1, 2, 4, 8, 1, 2, 4, 8]

  /** From 0xD0 on the codes are those of signed integers, negative if the highest
      bit is set. */
  lemma IntegersRead(s: bytes, limit: nat, maxString: nat)
    requires s != [] && 0xCC <= s[0] <= 0xD3
    ensures var r, t, k := Decode(s, limit, maxString), s[1..], WIDTHS[s[0] - 0xCC];
            r == if |t| < k then Err(IncompleteInput)
                 else if s[0] < 0xD0 || t[0] < 0x80 then Ok(Int(Places(t, k)), t[k..])
                 else Ok(Int(Places(t, k) - NUMBERS[k]), t[k..])
  {
    var t, k := s[1..], WIDTHS[s[0] - 0xCC];
    assert FormatOf(s[0]) == Integer(k, s[0] >= 0xD0) by { CodesSay(s[0]); }
    hide FormatOf, ReadUnsigned, Places;
    if |t| >= k { PlacesRead(t, k); } else { TooShort(t, k); }
  }

  lemma TooShort(t: bytes, k: nat)
    requires |t| < k
    ensures ReadUnsigned(t, k) == Err(IncompleteInput)
  {
  }

  /** How many bytes of a size stand behind these codes of strings. */
  const STRING_WIDTHS: map<byte, nat> := map[0xD9 := 1, 0xDA := 2, 0xDB := 4]

  /** A string is cut short by the input before it is too long for the memory. */
  lemma StringsRead(s: bytes, n: nat, t: bytes, limit: nat, maxString: nat)
    requires s != []
    requires || (s[0] / 0x20 == 5 && n == s[0] % 0x20 && t == s[1..])
             || (s[0] in STRING_WIDTHS
                 && var k := STRING_WIDTHS[s[0]];
                    |s| > k && n == Places(s[1..], k) && t == s[1..][k..])
    ensures Decode(s, limit, maxString)
            == if |t| < n then Err(IncompleteInput)
               else if n > maxString then Err(NoMemory)
               else Ok(Str(t[..n]), t[n..])
    ensures ReadKey(s, maxString)
            == if |t| < n then Err(IncompleteInput)
               else if n > maxString then Err(NoMemory)
               else Ok(t[..n], t[n..])
  {
    hide Places, ReadUnsigned;
    if s[0] in STRING_WIDTHS { PlacesRead(s[1..], STRING_WIDTHS[s[0]]); }
    CodesSay(s[0]);
    hide FormatOf;
  }

  /** One code is never used, and only strings are keys. */
  lemma OthersAreInvalid(s: bytes, limit: nat, maxString: nat)
    requires s != []
    ensures s[0] == 0xC1 ==> Decode(s, limit, maxString) == Err(InvalidInput)
    ensures s[0] / 0x20 != 5 && s[0] !in STRING_WIDTHS ==> ReadKey(s, maxString) == Err(InvalidInput)
    ensures s[0] == 0xCA && |s| > 4 ==> Decode(s, limit, maxString) == Ok(Real(Ieee(s[1..][..4])), s[1..][4..])
    ensures s[0] == 0xCB && |s| > 8 ==> Decode(s, limit, maxString) == Ok(Real(Ieee(s[1..][..8])), s[1..][8..])
    ensures s[0] in {0xCA, 0xCB} && |s| <= (if s[0] == 0xCA then 4 else 8) ==>
              Decode(s, limit, maxString) == Err(IncompleteInput)
  {
  }

  /** The codes of what is stepped over: how many bytes the size takes, and how many
      there are besides it; or how many there are in all. */
  const SIZES: map<byte, (nat, nat)> :=
    map[0xC4 := (1, 0), 0xC5 := (2, 0), 0xC6 := (4, 0), 0xC7 := (1, 1), 0xC8 := (2, 1), 0xC9 := (4, 1)]

  const FIXED: map<byte, nat> := map[0xD4 := 2, 0xD5 := 3, 0xD6 := 5, 0xD7 := 9, 0xD8 := 17]

  lemma SkipIs(t: bytes, size: Size, n: nat, u: bytes, extra: nat)
    requires ReadSize(t, size) == Ok(n, u)
    ensures var k := (n + extra) % 0x1_0000_0000;
            Skip(t, size, extra) == if |u| < k then Err(IncompleteInput) else Ok(Null, u[k..])
  {
    SpanValues();
  }

  lemma FixedSkipped(s: bytes, limit: nat, maxString: nat)
    requires s != [] && s[0] in FIXED
    ensures var n := FIXED[s[0]];
            Decode(s, limit, maxString) == if |s| <= n then Err(IncompleteInput) else Ok(Null, s[1..][n..])
  {
    hide FormatOf, Skip, FIXED;
    FixedSay(s[0]);
    SkipIs(s[1..], Given(FIXED[s[0]] - 1), FIXED[s[0]] - 1, s[1..], 1);
  }

  /** Binary data and extensions leave null. The length of an extension may wrap. */
  lemma ExtensionsSkipped(s: bytes, limit: nat, maxString: nat)
    requires s != []
    ensures s[0] in FIXED ==>
              var n := FIXED[s[0]];
              Decode(s, limit, maxString) == if |s| <= n then Err(IncompleteInput) else Ok(Null, s[1..][n..])
    ensures s[0] in SIZES && |s| > SIZES[s[0]].0 ==>
              var t := s[1..][SIZES[s[0]].0..];
              var n := (Places(s[1..], SIZES[s[0]].0) + SIZES[s[0]].1) % 0x1_0000_0000;
              Decode(s, limit, maxString) == if |t| < n then Err(IncompleteInput) else Ok(Null, t[n..])
  {
    hide FormatOf, Places, ReadUnsigned, Skip;
    if s[0] in FIXED { FixedSkipped(s, limit, maxString); }
    if s[0] in SIZES && |s| > SIZES[s[0]].0 {
      SizesSay(s[0]);
      PlacesRead(s[1..], SIZES[s[0]].0);
      SkipIs(s[1..], Follows(SIZES[s[0]].0), Places(s[1..], SIZES[s[0]].0), s[1..][SIZES[s[0]].0..], SIZES[s[0]].1);
    }
    hide Decode;
  }

  lemma FixedSay(code: byte)
    requires code in FIXED
    ensures FormatOf(code) == Ignored(Given(FIXED[code] - 1), 1) && 1 <= FIXED[code] <= 17
  {
  }

  lemma SizesSay(code: byte)
    requires code in SIZES
    ensures FormatOf(code) == Ignored(Follows(SIZES[code].0), SIZES[code].1) && SIZES[code].0 in {1, 2, 4}
  {
  }

  /** A key is read back up to its first NUL. */
  lemma KeyIsCut(key: bytes, tail: bytes, limit: nat, maxString: nat)
    requires |key| <= maxString < Span(4)
    ensures DecodeMember(StringHeader(|key|) + key + ([0xC0] + tail), limit, maxString)
            == Ok(Member(CString(key), Null), tail)
  {
    StringRoundTrip(key, [0xC0] + tail, limit, maxString);
    NilRead(tail, limit, maxString);
    hide Decode, ReadKey, StringHeader, CString;
  }

  lemma NilRead(tail: bytes, limit: nat, maxString: nat)
    ensures Decode([0xC0] + tail, limit, maxString) == Ok(Null, tail)
  {
    assert ([0xC0] + tail)[1..] == tail;
  }

  // What is written.

  lemma IntegersWritten(i: int)
    requires INT_MIN <= i <= UINT_MAX
    ensures var e := EncodeInteger(i);
            && (0 <= i <= 127 ==> e == [i])
            && (128 <= i <= 255 ==> e == [0xCC, i])
            && (256 <= i <= 65535 ==> e == [0xCD, i / 256, i % 256])
            && (65536 <= i <= 4294967295 ==>
                  e == [0xCE, i / 0x100_0000, i / 0x1_0000 % 0x100, i / 0x100 % 0x100, i % 0x100])
            && (4294967296 <= i ==> |e| == 9 && e[0] == 0xCF && Places(e[1..], 8) == i)
            && (-32 <= i < 0 ==> e == [256 + i])
            && (-128 <= i < -32 ==> e == [0xD0, 256 + i])
            && (-32768 <= i < -128 ==> |e| == 3 && e[0] == 0xD1 && Places(e[1..], 2) == i + 0x1_0000)
            && (-2147483648 <= i < -32768 ==> |e| == 5 && e[0] == 0xD2 && Places(e[1..], 4) == i + 0x1_0000_0000)
            && (i < -2147483648 ==>
                  |e| == 9 && e[0] == 0xD3 && Places(e[1..], 8) == i + 0x1_0000_0000_0000_0000)
  {
    SpanValues();
    if i > 0 {
      UnsignedWritten(i);
    } else if i < -128 {
      var k := if i >= -0x8000 then 2 else if i >= -0x8000_0000 then 4 else 8;
      assert EncodeInteger(i)[1..] == BigEndian(i + NUMBERS[k], k);
      PlacesWritten(i + NUMBERS[k], k);
    } else {
      OneByte(ToUnsigned(i, 1));
    }
  }

  lemma PlacesWritten(n: nat, k: nat)
    requires k in NUMBERS && n < NUMBERS[k]
    ensures Places(BigEndian(n, k), k) == n
  {
    hide Places, BigEndian, FromBigEndian;
    PlacesRead(BigEndian(n, k), k);
    BigEndianRoundTrip(n, k);
    assert BigEndian(n, k)[..k] == BigEndian(n, k);
  }

  lemma UnsignedWritten(n: nat)
    requires 0 < n <= UINT_MAX
    ensures var e := EncodeInteger(n);
            && (n <= 127 ==> e == [n])
            && (128 <= n <= 255 ==> e == [0xCC, n])
            && (256 <= n <= 65535 ==> e == [0xCD, n / 256, n % 256])
            && (65536 <= n <= 4294967295 ==>
                  e == [0xCE, n / 0x100_0000, n / 0x1_0000 % 0x100, n / 0x100 % 0x100, n % 0x100])
            && (4294967296 <= n ==> |e| == 9 && e[0] == 0xCF && Places(e[1..], 8) == n)
  {
    SpanValues();
    hide BigEndian, Places;
    TwoBytesWritten(n);
    FourBytesWritten(n);
    if n >= 4294967296 {
      PlacesWritten(n, 8);
      assert EncodeInteger(n)[1..] == BigEndian(n, 8);
    }
  }

  /** The sizes of strings, arrays and objects. */
  lemma SizesWritten(n: nat)
    requires n < 0x1_0000_0000
    ensures n < Span(4)
    ensures StringHeader(n)
            == if n < 32 then [0xA0 + n] else if n < 256 then [0xD9, n]
               else if n < 65536 then [0xDA, n / 256, n % 256]
               else [0xDB, n / 0x100_0000, n / 0x1_0000 % 0x100, n / 0x100 % 0x100, n % 0x100]
    ensures CollectionHeader(n, 0x90, 0xDC)
            == if n < 16 then [0x90 + n] else if n < 65536 then [0xDC, n / 256, n % 256]
               else [0xDD, n / 0x100_0000, n / 0x1_0000 % 0x100, n / 0x100 % 0x100, n % 0x100]
    ensures CollectionHeader(n, 0x80, 0xDE)
            == if n < 16 then [0x80 + n] else if n < 65536 then [0xDE, n / 256, n % 256]
               else [0xDF, n / 0x100_0000, n / 0x1_0000 % 0x100, n / 0x100 % 0x100, n % 0x100]
  {
    SpanValues();
    TwoBytesWritten(n);
    FourBytesWritten(n);
    hide BigEndian;
  }

  // No form is shorter.

  lemma StringHeaderIsShort(n: nat, m: nat)
    requires n <= m < Span(4)
    ensures |StringHeader(n)| <= |StringHeader(m)|
    ensures |StringHeader(n)| == if n < 32 then 1 else if n < 256 then 2 else if n < 65536 then 3 else 5
  {
    SpanValues();
  }

  /** A size read takes no fewer bytes than the same size written. */
  lemma SizeIsShort(s: bytes, size: Size, n: nat, t: bytes)
    requires s != [] && ReadSize(s[1..], size) == Ok(n, t)
    ensures |t| < |s|
    ensures FormatOf(s[0]) == Text(size) ==> n < Span(4) && |StringHeader(n)| <= |s| - |t|
    ensures FormatOf(s[0]) == Array(size) ==> n < Span(4) && |CollectionHeader(n, 0x90, 0xDC)| <= |s| - |t|
    ensures FormatOf(s[0]) == Map(size) ==> n < Span(4) && |CollectionHeader(n, 0x80, 0xDE)| <= |s| - |t|
  {
    SpanValues();
    hide BigEndian, FromBigEndian;
  }

  lemma IntegerIsShort(s: bytes, i: int, rest: bytes, limit: nat, maxString: nat)
    requires s != [] && FormatOf(s[0]).Integer? && Decode(s, limit, maxString) == Ok(Int(i), rest)
    ensures INT_MIN <= i <= UINT_MAX && |EncodeInteger(i)| + |rest| <= |s|
  {
    SpanValues();
    hide BigEndian, FromBigEndian;
  }

  /** Whatever is decoded as a document is no shorter than its encoding. */
  lemma {:induction false} NoneIsShorter(v: Value, s: bytes, rest: bytes, limit: nat, maxString: nat)
    requires maxString < Span(4) && Storable(v, maxString) && Decode(s, limit, maxString) == Ok(v, rest)
    ensures |Encode(v, maxString)| + |rest| <= |s|
    decreases v, 1
  {
    hide StringHeader, CollectionHeader, EncodeInteger, ReadSize;
    match FormatOf(s[0]) {
      case Text(size) =>
        var r := ReadSize(s[1..], size);
        SizeIsShort(s, size, r.value, r.rest);
      case Array(size) =>
        var r := ReadSize(s[1..], size);
        SizeIsShort(s, size, r.value, r.rest);
        NoElemsAreShorter(v.elems, r.rest, rest, limit - 1, maxString);
      case Map(size) =>
        var r := ReadSize(s[1..], size);
        SizeIsShort(s, size, r.value, r.rest);
        NoMembersAreShorter(v.members, r.rest, rest, limit - 1, maxString);
      case Integer(_, _) =>
        IntegerIsShort(s, v.i, rest, limit, maxString);
      case _ =>
        ConstantIsShort(v, s, rest, limit, maxString);
    }
  }

  lemma ConstantIsShort(v: Value, s: bytes, rest: bytes, limit: nat, maxString: nat)
    requires maxString < Span(4) && Storable(v, maxString) && Decode(s, limit, maxString) == Ok(v, rest)
    requires !FormatOf(s[0]).Text? && !FormatOf(s[0]).Array? && !FormatOf(s[0]).Map? && !FormatOf(s[0]).Integer?
    ensures |Encode(v, maxString)| + |rest| <= |s|
  {
    SpanValues();
    CodesSay(s[0]);
    if v.Int? { IntegersWritten(v.i); }
    hide EncodeInteger;
  }

  lemma {:induction false} NoElemsAreShorter(vs: seq<Value>, s: bytes, rest: bytes, limit: nat, maxString: nat)
    requires maxString < Span(4) && StorableElems(vs, maxString)
    requires DecodeElems(s, |vs|, limit, maxString) == Ok(vs, rest)
    ensures |EncodeElems(vs, maxString)| + |rest| <= |s|
    decreases vs, 0
  {
    if vs != [] {
      var first := Decode(s, limit, maxString);
      var more := DecodeElems(first.rest, |vs| - 1, limit, maxString);
      assert vs == [first.value] + more.value;
      assert vs[1..] == more.value;
      NoneIsShorter(vs[0], s, first.rest, limit, maxString);
      NoElemsAreShorter(vs[1..], first.rest, rest, limit, maxString);
    }
  }

  lemma {:induction false} NoMembersAreShorter(ms: seq<Member>, s: bytes, rest: bytes, limit: nat, maxString: nat)
    requires maxString < Span(4) && StorableMembers(ms, maxString)
    requires DecodeMembers(s, |ms|, limit, maxString) == Ok(ms, rest)
    ensures |EncodeMembers(ms, maxString)| + |rest| <= |s|
    decreases ms, 0
  {
    if ms != [] {
      var first := DecodeMember(s, limit, maxString);
      var more := DecodeMembers(first.rest, |ms| - 1, limit, maxString);
      assert ms == [first.value] + more.value;
      assert ms[1..] == more.value;
      NoMemberIsShorter(ms[0], s, first.rest, limit, maxString);
      NoMembersAreShorter(ms[1..], first.rest, rest, limit, maxString);
    }
  }

  lemma {:induction false} NoMemberIsShorter(m: Member, s: bytes, rest: bytes, limit: nat, maxString: nat)
    requires maxString < Span(4) && StorableMember(m, maxString)
    requires DecodeMember(s, limit, maxString) == Ok(m, rest)
    ensures |EncodeMember(m, maxString)| + |rest| <= |s|
    decreases m, 2
  {
    hide StringHeader, ReadSize;
    var key := ReadKey(s, maxString);
    var size := FormatOf(s[0]).size;
    var r := ReadSize(s[1..], size);
    SizeIsShort(s, size, r.value, r.rest);
    StringHeaderIsShort(|m.key|, r.value);
    NoneIsShorter(m.value, key.rest, rest, limit, maxString);
  }
}

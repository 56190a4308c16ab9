/** What a filter keeps, said by the values in the filter document alone. */
module FilterTheorems {
  import opened Bytes
  import opened Document
  import opened Ascii
  import opened Numbers
  import opened Filters
  import opened Json
  import opened JsonTheorems

  /** The number that a decimal text stands for. */
  function Amount(negative: bool, mantissa: nat, exponent: int): real {
    var a := if exponent >= 0 then (mantissa * Ten(exponent)) as real else mantissa as real / Ten(-exponent) as real;
    if negative then -a else a
  }

  const ONES: set<bytes> := {[0x3F, 0x80, 0, 0], [0x3F, 0xF0, 0, 0, 0, 0, 0, 0]}

  /** True, or a number that is one. */
  ghost predicate SaysAll(f: Value) {
    || f == Bool(true)
    || f == Int(1)
    || (f.Real? && f.x.Decimal? && Amount(f.x.negative, f.x.mantissa, f.x.exponent) == 1.0)
    || (f.Real? && f.x.Ieee? && f.x.bits in ONES)
  }

  /** Nothing, false, or a number that is zero. */
  ghost predicate SaysNothing(f: Value) {
    || f == Null
    || f == Bool(false)
    || f == Int(0)
    || (f.Real? && f.x.Zero?)
    || (f.Real? && f.x.Decimal? && Amount(f.x.negative, f.x.mantissa, f.x.exponent) == 0.0)
    || (f.Real? && f.x.Ieee? && f.x.bits != [] && (f.x.bits[0] == 0 || f.x.bits[0] == 0x80)
        && forall i | 1 <= i < |f.x.bits| :: f.x.bits[i] == 0)
  }

  /** The value of the first member with this key. */
  ghost predicate IsFirst(ms: seq<Member>, key: bytes, v: Value) {
    exists i | 0 <= i < |ms| ::
      ms[i].key == key && ms[i].value == v && forall j | 0 <= j < i :: ms[j].key != key
  }

  /** What the filter's object says about a key: what stands under the key, or
      under the asterisk if that is nothing or null. */
  function Rule(ms: seq<Member>, key: bytes): Value {
    if !Lookup(ms, key).Null? then Lookup(ms, key) else Lookup(ms, ['*' as int])
  }

  lemma {:induction false} LookupIsFirst(ms: seq<Member>, key: bytes)
    ensures IsFirst(ms, key, Lookup(ms, key))
            || (Lookup(ms, key) == Null && forall i | 0 <= i < |ms| :: ms[i].key != key)
  {
    if ms != [] && ms[0].key != key {
      LookupIsFirst(ms[1..], key);
      if IsFirst(ms[1..], key, Lookup(ms, key)) {
        var i :| 0 <= i < |ms[1..]| && ms[1..][i].key == key && ms[1..][i].value == Lookup(ms, key)
                 && forall j | 0 <= j < i :: ms[1..][j].key != key;
        forall j | 0 <= j < i + 1 ensures ms[j].key != key {
          assert j > 0 ==> ms[j] == ms[1..][j - 1];
        }
        assert ms[i + 1] == ms[1..][i];
      } else {
        forall i | 0 <= i < |ms| ensures ms[i].key != key {
          assert i > 0 ==> ms[i] == ms[1..][i - 1];
        }
      }
    }
  }

  /** A filter that says all keeps the value. An array keeps of an array what
      its first element says, an object of an object what it says of each key;
      of anything else, and of anything under another filter, null is left. */
  ghost function Kept(v: Value, f: Value): Value
    decreases v, 1
  {
    if SaysAll(f) then v
    else if v.Arr? && f.Arr? then Arr(KeptElems(v.elems, if f.elems == [] then Null else f.elems[0]))
    else if v.Obj? && f.Obj? then Obj(KeptMembers(v.members, f.members))
    else Null
  }

  ghost function KeptElems(vs: seq<Value>, f: Value): seq<Value>
    decreases vs, 0
  {
    if SaysNothing(f) then [] else seq(|vs|, i requires 0 <= i < |vs| => Kept(vs[i], f))
  }

  ghost function KeptMembers(ms: seq<Member>, fs: seq<Member>): seq<Member>
    decreases ms, 0
  {
    if ms == [] then []
    else
      var rule := Rule(fs, ms[0].key);
      (if SaysNothing(rule) then [] else [Member(ms[0].key, Kept(ms[0].value, rule))]) + KeptMembers(ms[1..], fs)
  }

  /** When an amount is one, or zero. */
  lemma AmountOf(negative: bool, mantissa: nat, exponent: int)
    ensures Amount(negative, mantissa, exponent) == 0.0 <==> mantissa == 0
    ensures Amount(negative, mantissa, exponent) == 1.0
            <==> !negative && exponent <= 0 && mantissa == Ten(-exponent)
  {
    if exponent > 0 {
      Times(mantissa, Ten(exponent));
    } else if exponent < 0 {
      Over(mantissa, Ten(-exponent));
    }
  }

  lemma Times(m: nat, t: nat)
    requires t >= 10
    ensures m == 0 || m * t >= 10
    ensures m * t == 0 <==> m == 0
  {
  }

  lemma Over(m: nat, t: nat)
    requires t >= 1
    ensures m as real / t as real == 1.0 <==> m == t
    ensures m as real / t as real == 0.0 <==> m == 0
    ensures m as real / t as real >= 0.0
  {
    var q := m as real / t as real;
    assert q * t as real == m as real;
  }

  lemma TrueSaysAll(f: Value)
    ensures By(f).IsTrue() <==> SaysAll(f)
  {
    if f.Real? && f.x.Decimal? { AmountOf(f.x.negative, f.x.mantissa, f.x.exponent); }
  }

  lemma AllowSaysNothing(f: Value)
    ensures By(f).Allow() <==> !SaysNothing(f)
  {
    if f.Real? && f.x.Decimal? {
      AmountOf(f.x.negative, f.x.mantissa, f.x.exponent);
    } else if f.Real? && f.x.Ieee? && f.x.bits != [] {
      assert f.x.bits[0] % 0x80 == 0 <==> f.x.bits[0] == 0 || f.x.bits[0] == 0x80;
    }
  }

  // A filter that says all.

  lemma {:induction false} AllKept(v: Value, f: Filter)
    requires f.IsTrue()
    ensures Project(v, f) == v
    decreases v, 1
  {
    match v {
      case Arr(elems) => AllElemsKept(elems, f);
      case Obj(members) => AllMembersKept(members, f);
      case _ =>
    }
  }

  lemma {:induction false} AllElemsKept(vs: seq<Value>, f: Filter)
    requires f.IsTrue()
    ensures ProjectElems(vs, f) == vs
    decreases vs, 0
  {
    AllIsAllowed(f);
    if vs != [] {
      AllKept(vs[0], f);
      AllElemsKept(vs[1..], f);
    }
  }

  lemma AllIsAllowed(f: Filter)
    requires f.IsTrue()
    ensures f.Allow()
  {
    if f.By? && f.doc.Real? && f.doc.x.Decimal? { AmountOf(f.doc.x.negative, f.doc.x.mantissa, f.doc.x.exponent); }
  }

  lemma {:induction false} AllMembersKept(ms: seq<Member>, f: Filter)
    requires f.IsTrue()
    ensures ProjectMembers(ms, f) == ms
    decreases ms, 0
  {
    AllIsAllowed(f);
    if ms != [] {
      AllKept(ms[0].value, f);
      AllMembersKept(ms[1..], f);
    }
  }

  // Any filter.

  lemma {:induction false} ProjectKeeps(v: Value, f: Value)
    ensures Project(v, By(f)) == Kept(v, f)
    decreases v, 1
  {
    TrueSaysAll(f);
    if SaysAll(f) {
      AllKept(v, By(f));
    } else if v.Arr? && f.Arr? {
      ElemsAreKept(v.elems, if f.elems == [] then Null else f.elems[0]);
    } else if v.Obj? && f.Obj? {
      MembersAreKept(v.members, f.members);
    }
  }

  lemma {:induction false} ElemsAreKept(vs: seq<Value>, f: Value)
    ensures ProjectElems(vs, By(f)) == KeptElems(vs, f)
    decreases vs, 0
  {
    AllowSaysNothing(f);
    if vs != [] && !SaysNothing(f) {
      ProjectKeeps(vs[0], f);
      ElemsAreKept(vs[1..], f);
      assert KeptElems(vs, f) == [Kept(vs[0], f)] + KeptElems(vs[1..], f);
    }
  }

  lemma {:induction false} MembersAreKept(ms: seq<Member>, fs: seq<Member>)
    ensures ProjectMembers(ms, By(Obj(fs))) == KeptMembers(ms, fs)
    decreases ms, 0
  {
    if ms != [] {
      var rule := Rule(fs, ms[0].key);
      AllowSaysNothing(rule);
      ProjectKeeps(ms[0].value, rule);
      MembersAreKept(ms[1..], fs);
      assert By(Obj(fs)).AtKey(ms[0].key) == By(rule);
    }
  }

  // What the parser leaves.

  /** What is parsed under a filter is what the filter document's values say of
      what is parsed without. */
  lemma FilteredParseKeeps(s: bytes, f: Value, limit: nat, maxString: nat)
    requires Parse(s, AllowAll, limit, maxString).Ok?
    ensures var r := Parse(s, AllowAll, limit, maxString);
            Parse(s, By(f), limit, maxString) == Ok(Kept(r.value, f), r.rest)
  {
    FilteredParseProjects(s, By(f), limit, maxString);
    ProjectKeeps(Parse(s, AllowAll, limit, maxString).value, f);
  }

  /** A value, an element or a member under a filter of its kind keeps its kind,
      and under any other that does not say all nothing but null is left. */
  lemma KindIsKept(v: Value, f: Value)
    ensures SaysAll(f) ==> Project(v, By(f)) == v
    ensures !SaysAll(f) ==> (Project(v, By(f)).Arr? <==> v.Arr? && f.Arr?)
    ensures !SaysAll(f) ==> (Project(v, By(f)).Obj? <==> v.Obj? && f.Obj?)
    ensures !SaysAll(f) && !(v.Arr? && f.Arr?) && !(v.Obj? && f.Obj?) ==> Project(v, By(f)) == Null
  {
    ProjectKeeps(v, f);
  }

  /** An element or a member is kept unless its filter says nothing, and then it is
      stepped over. */
  lemma NothingKept(s: bytes, f: Value, limit: nat, maxString: nat)
    ensures var r := ParseElem(s, By(f), limit, maxString);
            && (r.Ok? ==> |r.value| == if SaysNothing(f) then 0 else 1)
            && (SaysNothing(f) ==>
                  r == match SkipVariant(s, true, limit) case Err(e) => Err(e) case Ok(_, rest) => Ok([], rest))
  {
    AllowSaysNothing(f);
  }

  // Under a filter that says all, every input is parsed as without one.

  ghost predicate Alike(s: bytes, found: bool, f: Filter, limit: nat, maxString: nat) {
    ParseVariant(s, found, f, limit, maxString) == ParseVariant(s, found, AllowAll, limit, maxString)
  }

  lemma {:induction false} VariantAlike(s: bytes, found: bool, f: Filter, limit: nat, maxString: nat)
    requires f.IsTrue()
    ensures Alike(s, found, f, limit, maxString)
    decreases |s|, 1
  {
    var r := SkipSpaces(s, found);
    if r.Ok? { ValueAlike(r.rest, f, limit, maxString); }
  }

  lemma {:induction false} ValueAlike(s: bytes, f: Filter, limit: nat, maxString: nat)
    requires f.IsTrue()
    ensures ParseValue(s, f, limit, maxString) == ParseValue(s, AllowAll, limit, maxString)
    decreases |s|, 0
  {
    if Head(s) == OPEN_ARRAY && limit > 0 {
      var r := SkipSpaces(s[1..], true);
      if r.Ok? { ElemsAlike(r.rest, f, limit - 1, maxString); }
    } else if Head(s) == OPEN_OBJECT && limit > 0 {
      var r := SkipSpaces(s[1..], true);
      if r.Ok? { MembersAlike(r.rest, f, limit - 1, maxString); }
    }
  }

  lemma {:induction false} ElemAlike(s: bytes, f: Filter, limit: nat, maxString: nat)
    requires f.IsTrue()
    ensures ParseElem(s, f, limit, maxString) == ParseElem(s, AllowAll, limit, maxString)
    decreases |s|, 2
  {
    AllIsAllowed(f);
    VariantAlike(s, true, f, limit, maxString);
  }

  lemma {:induction false} ElemsAlike(s: bytes, f: Filter, limit: nat, maxString: nat)
    requires f.IsTrue()
    ensures ParseElems(s, f, limit, maxString) == ParseElems(s, AllowAll, limit, maxString)
    decreases |s|, 3
  {
    ElemAlike(s, f, limit, maxString);
    var first := ParseElem(s, AllowAll, limit, maxString);
    if first.Ok? {
      var sep := Separator(first.rest, CLOSE_ARRAY);
      if sep.Ok? { ElemsAlike(sep.rest, f, limit, maxString); }
    }
  }

  lemma {:induction false} MembersAlike(s: bytes, f: Filter, limit: nat, maxString: nat)
    requires f.IsTrue()
    ensures ParseMembers(s, f, limit, maxString) == ParseMembers(s, AllowAll, limit, maxString)
    decreases |s|, 3
  {
    var key := ParseKeyColon(s, maxString);
    if key.Ok? {
      ElemAlike(key.rest, f, limit, maxString);
      assert f.AtKey(key.value) == f && AllowAll.AtKey(key.value) == AllowAll;
      assert ParseMember(s, f, limit, maxString) == ParseMember(s, AllowAll, limit, maxString);
      var first := ParseMember(s, AllowAll, limit, maxString);
      if first.Ok? {
        var sep := MemberSeparator(first.rest);
        if sep.Ok? { MembersAlike(sep.rest, f, limit, maxString); }
      }
    }
  }

  /** True as a filter is no filter, whatever the input. */
  lemma TrueIsNoFilter(s: bytes, f: Value, limit: nat, maxString: nat)
    requires SaysAll(f)
    ensures Parse(s, By(f), limit, maxString) == Parse(s, AllowAll, limit, maxString)
    ensures Parse(s, By(Bool(true)), limit, maxString) == Parse(s, AllowAll, limit, maxString)
  {
    TrueSaysAll(f);
    VariantAlike(s, false, By(f), limit, maxString);
    VariantAlike(s, false, By(Bool(true)), limit, maxString);
  }
}

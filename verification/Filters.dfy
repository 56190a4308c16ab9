/** Filters: a document that says which parts of the input are kept. */
module Filters {
  import opened Bytes
  import opened Document

  const WILDCARD: bytes := [0x2A]

  datatype Filter = AllowAll | By(doc: Value) {

    /** The document compares equal to true, as true and one do. */
    predicate IsTrue() {
      match this
      case AllowAll => true
      case By(Bool(b)) => b
      case By(Int(i)) => i == 1
      case By(Real(x)) => IsOne(x)
      case By(_) => false
    }

    predicate Allow() {
      match this
      case AllowAll => true
      case By(Null) => false
      case By(Bool(b)) => b
      case By(Int(i)) => i != 0
      case By(Real(x)) => !IsZero(x)
      case By(_) => true
    }

    predicate AllowArray() { IsTrue() || doc.Arr? }

    predicate AllowObject() { IsTrue() || doc.Obj? }

    predicate AllowValue() { IsTrue() }

    function AtKey(key: bytes): Filter {
      if IsTrue() then this else OrWildcard(GetMember(doc, key))
    }

    function AtElement(): Filter {
      if IsTrue() then this else OrWildcard(GetElement(doc))
    }

    function OrWildcard(found: Value): Filter
      requires By?
    {
      By(if found.Null? then GetMember(doc, WILDCARD) else found)
    }
  }

  /** Compared as written, before rounding; a message has the bits of a float or
      a double. */
  predicate IsOne(x: Float) {
    match x
    case Decimal(negative, mantissa, exponent) => !negative && exponent <= 0 && mantissa == Ten(-exponent)
    case Ieee(bits) => bits == [0x3F, 0x80, 0, 0] || bits == [0x3F, 0xF0, 0, 0, 0, 0, 0, 0]
    case _ => false
  }

  predicate IsZero(x: Float) {
    match x
    case Zero(_) => true
    case Decimal(_, mantissa, _) => mantissa == 0
    case Ieee(bits) => bits != [] && bits[0] % 0x80 == 0 && forall i | 1 <= i < |bits| :: bits[i] == 0
    case _ => false
  }

  function Ten(k: nat): (p: nat)
    ensures p >= 1
  {
    if k == 0 then 1 else 10 * Ten(k - 1)
  }

  function GetElement(v: Value): Value {
    if v.Arr? && v.elems != [] then v.elems[0] else Null
  }

  function GetMember(v: Value, key: bytes): Value {
    if v.Obj? then Lookup(v.members, key) else Null
  }

  /** The first member with this key; null if there is none. */
  function Lookup(ms: seq<Member>, key: bytes): Value {
    if ms == [] then Null
    else if ms[0].key == key then ms[0].value
    else Lookup(ms[1..], key)
  }

  // ----- the part of a document that a filter keeps -----

  function Project(v: Value, f: Filter): Value
    decreases v, 1
  {
    match v
    case Arr(elems) => if f.AllowArray() then Arr(ProjectElems(elems, f.AtElement())) else Null
    case Obj(members) => if f.AllowObject() then Obj(ProjectMembers(members, f)) else Null
    case _ => if f.AllowValue() then v else Null
  }

  function ProjectElems(vs: seq<Value>, f: Filter): seq<Value>
    decreases vs, 0
  {
    if vs == [] || !f.Allow() then [] else [Project(vs[0], f)] + ProjectElems(vs[1..], f)
  }

  function ProjectMembers(ms: seq<Member>, f: Filter): seq<Member>
    decreases ms, 0
  {
    if ms == [] then []
    else
      var inner := f.AtKey(ms[0].key);
      if inner.Allow() then
        [Member(ms[0].key, Project(ms[0].value, inner))] + ProjectMembers(ms[1..], f)
      else ProjectMembers(ms[1..], f)
  }

  // ----- objects while they are filled -----

  predicate HasKey(ms: seq<Member>, key: bytes) {
    exists i :: 0 <= i < |ms| && ms[i].key == key
  }

  /** A repeated key keeps its place and takes the new value. */
  function PutMember(ms: seq<Member>, m: Member): (r: seq<Member>)
    ensures HasKey(ms, m.key) ==> |r| == |ms|
  {
    if ms == [] then [m]
    else if ms[0].key == m.key then [m] + ms[1..]
    else
      assert HasKey(ms, m.key) ==> HasKey(ms[1..], m.key) by {
        if HasKey(ms, m.key) {
          var i :| 0 <= i < |ms| && ms[i].key == m.key;
          assert ms[1..][i - 1].key == m.key;
        }
      }
      [ms[0]] + PutMember(ms[1..], m)
  }

  function PutAll(ms: seq<Member>, added: seq<Member>): seq<Member>
    decreases added
  {
    if added == [] then ms else PutAll(PutMember(ms, added[0]), added[1..])
  }

  // Which filters keep a value, and where the wildcard speaks.

  /** Of the integers only one is a filter that keeps a string; the others but
      zero let it through as null. */
  lemma OneIsTrue(n: int, s: bytes)
    ensures Project(Str(s), By(Int(n))) == if n == 1 then Str(s) else Null
    ensures By(Int(n)).Allow() <==> n != 0
  {
  }

  /** The wildcard decides about a key that is not in the filter, and about one
      whose filter is null. */
  lemma NullGivesWay(ms: seq<Member>, key: bytes)
    ensures By(Obj(ms)).AtKey(key) == By(if Lookup(ms, key).Null? then Lookup(ms, WILDCARD) else Lookup(ms, key))
    ensures By(Obj([Member(key, Null)] + ms)).AtKey(key) == By(Lookup([Member(key, Null)] + ms, WILDCARD))
    ensures By(Obj([Member(key, Bool(false))] + ms)).AtKey(key) == By(Bool(false))
  {
    assert ([Member(key, Null)] + ms)[0] == Member(key, Null);
    assert ([Member(key, Bool(false))] + ms)[0] == Member(key, Bool(false));
  }
}

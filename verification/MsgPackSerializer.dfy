/** The MessagePack printer. */
module MsgPackSerializers {
  import opened Bytes
  import opened Document
  import opened Endianness
  import opened MsgPack

  lemma ElemsFrom(elems: seq<Value>, i: nat, maxString: nat)
    requires maxString < Span(4) && i < |elems|
    requires StorableElems(elems[i..], maxString)
    ensures Storable(elems[i], maxString) && StorableElems(elems[i + 1..], maxString)
    ensures EncodeElems(elems[i..], maxString) == Encode(elems[i], maxString) + EncodeElems(elems[i + 1..], maxString)
  {
    assert elems[i..][0] == elems[i] && elems[i..][1..] == elems[i + 1..];
  }

  lemma MembersFrom(members: seq<Member>, i: nat, maxString: nat)
    requires maxString < Span(4) && i < |members|
    requires StorableMembers(members[i..], maxString)
    ensures StorableMember(members[i], maxString) && StorableMembers(members[i + 1..], maxString)
    ensures EncodeMembers(members[i..], maxString)
            == EncodeMember(members[i], maxString) + EncodeMembers(members[i + 1..], maxString)
  {
    assert members[i..][0] == members[i] && members[i..][1..] == members[i + 1..];
  }

  class MsgPackSerializer {
    const maxString: nat
    // what writer_ has received
    var out: bytes

    constructor (maxString: nat)
      ensures out == [] && this.maxString == maxString
    {
      this.maxString := maxString;
      out := [];
    }

    method WriteByte(c: byte)
      modifies this
      ensures out == old(out) + [c]
    {
      out := out + [c];
    }

    method WriteInteger(n: nat, k: nat)
      requires k in {1, 2, 4, 8}
      modifies this
      ensures out == old(out) + BigEndian(n, k)
    {
      var s := ToNetwork(n, k);
      out := out + s;
    }

    method VisitUnsigned(value: nat)
      requires value <= UINT_MAX
      modifies this
      ensures out == old(out) + EncodeUnsigned(value)
    {
      if value <= 0x7F {
        WriteInteger(value, 1);
      } else if value <= 0xFF {
        WriteByte(0xCC);
        WriteInteger(value, 1);
      } else if value <= 0xFFFF {
        WriteByte(0xCD);
        WriteInteger(value, 2);
      } else if value <= 0xFFFF_FFFF {
        WriteByte(0xCE);
        WriteInteger(value, 4);
      } else {
        WriteByte(0xCF);
        WriteInteger(value, 8);
      }
    }

    method VisitInteger(value: int)
      requires INT_MIN <= value <= UINT_MAX
      modifies this
      ensures out == old(out) + EncodeInteger(value)
    {
      if value > 0 {
        VisitUnsigned(value);
      } else if value >= -0x20 {
        WriteInteger(ToUnsigned(value, 1), 1);
      } else if value >= -0x80 {
        WriteByte(0xD0);
        WriteInteger(ToUnsigned(value, 1), 1);
      } else if value >= -0x8000 {
        WriteByte(0xD1);
        WriteInteger(ToUnsigned(value, 2), 2);
      } else if value >= -0x8000_0000 {
        WriteByte(0xD2);
        WriteInteger(ToUnsigned(value, 4), 4);
      } else {
        WriteByte(0xD3);
        WriteInteger(ToUnsigned(value, 8), 8);
      }
    }

    method VisitString(value: bytes)
      requires |value| < Span(4)
      modifies this
      ensures out == old(out) + StringHeader(|value|) + value
    {
      var n := |value|;
      if n < 0x20 {
        WriteByte(0xA0 + n);
      } else if n < 0x100 {
        WriteByte(0xD9);
        WriteInteger(n, 1);
      } else if n < 0x10000 {
        WriteByte(0xDA);
        WriteInteger(n, 2);
      } else {
        WriteByte(0xDB);
        WriteInteger(n, 4);
      }
      out := out + value;
    }

    method WriteSize(n: nat, fix: byte, code: byte)
      requires n < Span(4) && fix <= 0x90 && code < 0xFF
      modifies this
      ensures out == old(out) + CollectionHeader(n, fix, code)
    {
      if n < 0x10 {
        WriteByte(fix + n);
      } else if n < 0x10000 {
        WriteByte(code);
        WriteInteger(n, 2);
      } else {
        WriteByte(code + 1);
        WriteInteger(n, 4);
      }
    }

    method VisitArray(elems: seq<Value>)
      requires maxString < Span(4)
      requires Storable(Arr(elems), maxString)
      modifies this
      ensures out == old(out) + Encode(Arr(elems), maxString)
      decreases elems, 0
    {
      var n := |elems|;
      WriteSize(n, 0x90, 0xDC);
      ghost var start := out;
      var i := 0;
      assert elems[i..] == elems;
      while i < n
        invariant 0 <= i <= n
        invariant StorableElems(elems[i..], maxString)
        invariant out + EncodeElems(elems[i..], maxString) == start + EncodeElems(elems, maxString)
      {
        ElemsFrom(elems, i, maxString);
        ghost var before := out;
        Visit(elems[i]);
        Associates(before, Encode(elems[i], maxString), EncodeElems(elems[i + 1..], maxString));
        i := i + 1;
      }
      assert out + [] == out;
      Associates(old(out), CollectionHeader(n, 0x90, 0xDC), EncodeElems(elems, maxString));
    }

    method VisitObject(members: seq<Member>)
      requires maxString < Span(4)
      requires Storable(Obj(members), maxString)
      modifies this
      ensures out == old(out) + Encode(Obj(members), maxString)
      decreases members, 0
    {
      var n := |members|;
      WriteSize(n, 0x80, 0xDE);
      ghost var start := out;
      var i := 0;
      assert members[i..] == members;
      while i < n
        invariant 0 <= i <= n
        invariant StorableMembers(members[i..], maxString)
        invariant out + EncodeMembers(members[i..], maxString) == start + EncodeMembers(members, maxString)
      {
        MembersFrom(members, i, maxString);
        ghost var before := out;
        VisitString(members[i].key);
        ghost var key := StringHeader(|members[i].key|) + members[i].key;
        assert out == before + key;
        Visit(members[i].value);
        Associates(before, key, Encode(members[i].value, maxString));
        Associates(before, EncodeMember(members[i], maxString), EncodeMembers(members[i + 1..], maxString));
        i := i + 1;
      }
      assert out + [] == out;
      Associates(old(out), CollectionHeader(n, 0x80, 0xDE), EncodeMembers(members, maxString));
    }

    method Visit(v: Value)
      requires maxString < Span(4)
      requires Storable(v, maxString)
      modifies this
      ensures out == old(out) + Encode(v, maxString)
      decreases v, 1
    {
      match v {
        case Null => WriteByte(0xC0);
        case Bool(b) => WriteByte(if b then 0xC3 else 0xC2);
        case Int(i) => VisitInteger(i);
        case Str(s) => VisitString(s);
        case Arr(elems) => VisitArray(elems);
        case Obj(members) => VisitObject(members);
      }
    }
  }
}

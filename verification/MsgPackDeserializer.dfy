/** The MessagePack parser, proved against MsgPack.Decode. */
module MsgPackDeserializers {
  import opened Bytes
  import opened Document
  import opened Endianness
  import opened MsgPack
  import opened Options
  import opened StringBuilders

  class MsgPackDeserializer {
    // what reader_ has not delivered yet
    var input: bytes
    var foundSomething: bool
    const builder: StringBuilder

    ghost predicate Valid()
      reads this, builder
    {
      builder.Valid()
    }

    constructor (input: bytes, maxString: nat)
      requires Doubles(INITIAL_CAPACITY, maxString)
      ensures Valid() && fresh(builder)
      ensures this.input == input && !foundSomething && builder.maxString == maxString
    {
      this.input := input;
      foundSomething := false;
      builder := new StringBuilder(maxString);
    }

    method Parse(limit: nat) returns (status: Status, v: Value)
      requires Valid() && !foundSomething
      modifies this, builder
      ensures Valid()
      ensures Agrees(status, v, input, MsgPack.Parse(old(input), limit, builder.maxString))
    {
      status, v := ParseVariant(limit);
      if !foundSomething {
        status := Failed(EmptyInput);
      }
    }

    method ParseVariant(limit: nat) returns (status: Status, v: Value)
      requires Valid()
      modifies this, builder
      ensures Valid()
      ensures foundSomething == (old(foundSomething) || old(input) != [])
      ensures Agrees(status, v, input, Decode(old(input), limit, builder.maxString))
      decreases |input|, 0
    {
      v := Null;
      var code: byte;
      status, code := ReadByte();
      if status.Failed? { return; }
      foundSomething := true;
      match FormatOf(code) {
        case Constant(value) => v := value;
        case NeverUsed => status := Failed(InvalidInput);
        case Ignored(size, extra) =>
          var n;
          status, n := ReadSize(size);
          if status.Failed? { return; }
          status := SkipBytes((n + extra) % Span(4));
        case Floating(width) =>
          var bits;
          status, bits := ReadBytes(width);
          v := Real(Ieee(bits));
        case Integer(width, signed) =>
          var n;
          status, n := ReadInteger(width);
          if status.Failed? { return; }
          v := Int(if signed then ToSigned(n, width) else n);
        case Text(size) =>
          var n;
          status, n := ReadSize(size);
          if status.Failed? { return; }
          status := ReadString(n);
          if status.Failed? { return; }
          var isNew: bool := *;
          var s := builder.Save(isNew);
          v := Str(s);
        case Array(size) =>
          var n;
          status, n := ReadSize(size);
          if status.Failed? { return; }
          status, v := ReadArray(n, limit);
        case Map(size) =>
          var n;
          status, n := ReadSize(size);
          if status.Failed? { return; }
          status, v := ReadObject(n, limit);
      }
    }

    method ReadByte() returns (status: Status, value: byte)
      modifies this`input
      ensures if old(input) == [] then status == Failed(IncompleteInput) && input == []
              else status == Fine && value == old(input)[0] && input == old(input)[1..]
    {
      if input == [] {
        return Failed(IncompleteInput), 0;
      }
      status, value, input := Fine, input[0], input[1..];
    }

    method ReadBytes(n: nat) returns (status: Status, p: bytes)
      modifies this`input
      ensures if |old(input)| < n then status == Failed(IncompleteInput)
              else status == Fine && p == old(input)[..n] && input == old(input)[n..]
    {
      if |input| < n {
        return Failed(IncompleteInput), [];
      }
      status, p, input := Fine, input[..n], input[n..];
    }

    method SkipBytes(count: nat) returns (status: Status)
      modifies this`input
      ensures if |old(input)| < count then status == Failed(IncompleteInput)
              else status == Fine && input == old(input)[count..]
    {
      var n: nat := count;
      while n > 0
        invariant n <= count && count - n <= |old(input)|
        invariant input == old(input)[count - n..]
      {
        var c;
        status, c := ReadByte();
        if status.Failed? { return; }
        n := n - 1;
      }
      status := Fine;
    }

    method ReadInteger(width: nat) returns (status: Status, n: nat)
      requires width in {1, 2, 4, 8}
      modifies this`input
      ensures Agrees(status, n, input, ReadUnsigned(old(input), width))
    {
      n := 0;
      var p;
      status, p := ReadBytes(width);
      if status.Failed? { return; }
      n := FromNetwork(p);
    }

    method ReadSize(size: Size) returns (status: Status, n: nat)
      requires size.Follows? ==> size.width in {1, 2, 4, 8}
      modifies this`input
      ensures Agrees(status, n, input, MsgPack.ReadSize(old(input), size))
    {
      match size {
        case Given(m) => status, n := Fine, m;
        case Follows(width) => status, n := ReadInteger(width);
      }
    }

    method ReadString(count: nat) returns (status: Status)
      requires Valid()
      modifies this`input, builder
      ensures Valid()
      ensures
        if |old(input)| < count then status == Failed(IncompleteInput)
        else if count > builder.maxString then status == Failed(NoMemory)
        else
          && status == Fine
          && input == old(input)[count..]
          && builder.Content() == Some(old(input)[..count])
    {
      builder.StartString();
      var n: nat := count;
      while n > 0
        invariant Valid()
        invariant n <= count && count - n <= |old(input)|
        invariant input == old(input)[count - n..]
        invariant builder.Content() ==
                  if count - n > builder.maxString then None else Some(old(input)[..count - n])
      {
        var c;
        status, c := ReadByte();
        if status.Failed? { return; }
        assert old(input)[..count - n] + [c] == old(input)[..count - n + 1];
        builder.Append(c);
        n := n - 1;
      }
      status := if builder.node.None? then Failed(NoMemory) else Fine;
    }

    method ReadArray(count: nat, limit: nat) returns (status: Status, v: Value)
      requires Valid() && foundSomething
      modifies this, builder
      ensures Valid() && foundSomething
      ensures Agrees(status, v, input, DecodeArray(Ok(count, old(input)), limit, builder.maxString))
      decreases |input|, 1
    {
      v := Null;
      if limit == 0 {
        return Failed(TooDeep), v;
      }
      var elems: seq<Value> := [];
      var n: nat := count;
      PrependNothing(DecodeElems(input, n, limit - 1, builder.maxString));
      while n > 0
        invariant Valid() && foundSomething
        invariant |input| <= old(|input|)
        invariant DecodeElems(old(input), count, limit - 1, builder.maxString)
                  == Prepend(elems, DecodeElems(input, n, limit - 1, builder.maxString))
      {
        var value;
        status, value := ParseVariant(limit - 1);
        if status.Failed? { return; }
        n := n - 1;
        PrependMore(elems, [value], DecodeElems(input, n, limit - 1, builder.maxString));
        elems := elems + [value];
      }
      assert elems + [] == elems;
      status, v := Fine, Arr(elems);
    }

    method ReadObject(count: nat, limit: nat) returns (status: Status, v: Value)
      requires Valid() && foundSomething
      modifies this, builder
      ensures Valid() && foundSomething
      ensures Agrees(status, v, input, DecodeObject(Ok(count, old(input)), limit, builder.maxString))
      decreases |input|, 1
    {
      hide Decode, MsgPack.ReadKey, CString;
      v := Null;
      if limit == 0 {
        return Failed(TooDeep), v;
      }
      var members: seq<Member> := [];
      var n: nat := count;
      PrependNothing(DecodeMembers(input, n, limit - 1, builder.maxString));
      while n > 0
        invariant Valid() && foundSomething
        invariant |input| <= old(|input|)
        invariant DecodeMembers(old(input), count, limit - 1, builder.maxString)
                  == Prepend(members, DecodeMembers(input, n, limit - 1, builder.maxString))
      {
        ghost var start := input;
        status := ReadKey();
        if status.Failed? { return; }
        var isNew: bool := *;
        var key := builder.Save(isNew);
        var value;
        status, value := ParseVariant(limit - 1);
        if status.Failed? { return; }
        assert DecodeMember(start, limit - 1, builder.maxString) == Ok(Member(CString(key), value), input);
        n := n - 1;
        PrependMore(members, [Member(CString(key), value)], DecodeMembers(input, n, limit - 1, builder.maxString));
        members := members + [Member(CString(key), value)];
      }
      assert members + [] == members;
      status, v := Fine, Obj(members);
    }

    method ReadKey() returns (status: Status)
      requires Valid()
      modifies this`input, builder
      ensures Valid()
      ensures
        var r := MsgPack.ReadKey(old(input), builder.maxString);
        && (status == if r.Ok? then Fine else Failed(r.code))
        && (r.Ok? ==> input == r.rest && builder.Content() == Some(r.value))
    {
      var code: byte;
      status, code := ReadByte();
      if status.Failed? { return; }
      var format := FormatOf(code);
      if !format.Text? {
        return Failed(InvalidInput);
      }
      var n;
      status, n := ReadSize(format.size);
      if status.Failed? { return; }
      status := ReadString(n);
    }
  }
}

/** The minified and the indented JSON printer. */
module JsonSerializers {
  import opened Bytes
  import opened Ascii
  import opened Document
  import opened Numbers
  import opened Printer
  import opened TextFormatters

  /** The text of one element or one member with all that surrounds it. */
  function Line(text: bytes, last: bool, style: Style, depth: nat): bytes {
    Indent(style, depth) + (text + (Comma(last) + Newline(style)))
  }

  lemma LineThenMore(text: bytes, last: bool, style: Style, depth: nat, more: bytes)
    ensures Line(text, last, style, depth) + more
            == Indent(style, depth) + (text + Comma(last) + Newline(style) + more)
  {
    Associates(Indent(style, depth), text + (Comma(last) + Newline(style)), more);
    Associates(text, Comma(last), Newline(style));
  }

  lemma ElemsFrom(vs: seq<Value>, i: nat, style: Style, depth: nat)
    requires i < |vs| && PlainElems(vs[i..])
    ensures Plain(vs[i]) && PlainElems(vs[i + 1..])
    ensures RenderElems(vs[i..], style, depth)
            == Line(Render(vs[i], style, depth), i + 1 == |vs|, style, depth) + RenderElems(vs[i + 1..], style, depth)
  {
    assert vs[i..][0] == vs[i] && vs[i..][1..] == vs[i + 1..];
    LineThenMore(Render(vs[i], style, depth), i + 1 == |vs|, style, depth, RenderElems(vs[i + 1..], style, depth));
  }

  lemma MembersFrom(ms: seq<Member>, i: nat, style: Style, depth: nat)
    requires i < |ms| && PlainMembers(ms[i..])
    ensures Plain(ms[i].value) && PlainMembers(ms[i + 1..])
    ensures RenderMembers(ms[i..], style, depth)
            == Line(MemberText(ms[i], style, depth), i + 1 == |ms|, style, depth)
               + RenderMembers(ms[i + 1..], style, depth)
  {
    assert ms[i..][0] == ms[i] && ms[i..][1..] == ms[i + 1..];
    LineThenMore(MemberText(ms[i], style, depth), i + 1 == |ms|, style, depth,
                 RenderMembers(ms[i + 1..], style, depth));
  }

  lemma NothingLeft(vs: seq<Value>, ms: seq<Member>, style: Style, depth: nat)
    ensures RenderElems(vs[|vs|..], style, depth) == [] && RenderMembers(ms[|ms|..], style, depth) == []
  {
  }

  /** The whole of a collection with something in it, piece by piece. */
  lemma ArrayWritten(before: bytes, elems: seq<Value>, depth: nat)
    requires elems != [] && PlainElems(elems)
    ensures before + ([OPEN_ARRAY] + NEWLINE) + RenderElems(elems, Pretty, depth + 1) + Tabs(depth % 0x100)
              + [CLOSE_ARRAY]
            == before + Render(Arr(elems), Pretty, depth)
  {
    BracketsWritten(before, [OPEN_ARRAY], NEWLINE, RenderElems(elems, Pretty, depth + 1), Tabs(depth % 0x100),
                    [CLOSE_ARRAY]);
  }

  lemma ObjectWritten(before: bytes, members: seq<Member>, depth: nat)
    requires members != [] && PlainMembers(members)
    ensures before + ([OPEN_OBJECT] + NEWLINE) + RenderMembers(members, Pretty, depth + 1) + Tabs(depth % 0x100)
              + [CLOSE_OBJECT]
            == before + Render(Obj(members), Pretty, depth)
  {
    BracketsWritten(before, [OPEN_OBJECT], NEWLINE, RenderMembers(members, Pretty, depth + 1), Tabs(depth % 0x100),
                    [CLOSE_OBJECT]);
  }

  lemma BracketsWritten(before: bytes, open: bytes, newline: bytes, body: bytes, outdent: bytes, close: bytes)
    ensures before + (open + newline) + body + outdent + close == before + (open + newline + body + outdent + close)
  {
    Regroups(before, open + newline, body, outdent, close);
    Associates(open + newline, body, outdent);
    Associates(open + newline + body, outdent, close);
    Associates(open + newline, body, outdent + close);
  }

  lemma NestingRestored(nesting: nat, depth: nat)
    requires nesting == (depth + 1) % 0x100
    ensures (nesting - 1) % 0x100 == depth % 0x100
  {
  }

  lemma Closed(before: bytes, open: byte, body: bytes, close: byte)
    ensures before + [open] + body + [close] == before + ([open] + [] + body + [] + [close])
    ensures body == [] ==> before + [open] + body + [close] == before + [open, close]
  {
  }

  lemma MinifiedLine(before: bytes, text: bytes, last: bool, depth: nat)
    ensures before + text + Comma(last) == before + Line(text, last, Minified, depth)
  {
  }

  lemma PrettyLine(before: bytes, indent: bytes, text: bytes, end: bytes)
    ensures before + indent + text + end == before + (indent + (text + end))
  {
  }

  lemma MemberWritten(before: bytes, key: bytes, colon: bytes, value: bytes)
    ensures before + key + colon + value == before + (key + (colon + value))
  {
  }

  class JsonSerializer {
    const formatter: TextFormatter

    constructor ()
      ensures fresh(formatter) && formatter.out == []
    {
      formatter := new TextFormatter();
    }

    method VisitElement(v: Value, last: bool, ghost depth: nat)
      requires Plain(v)
      modifies formatter
      ensures formatter.out == old(formatter.out) + Line(Render(v, Minified, depth), last, Minified, depth)
      decreases v, 2
    {
      Visit(v, depth);
      MinifiedLine(old(formatter.out), Render(v, Minified, depth), last, depth);
      if !last {
        formatter.WriteRaw([COMMA]);
      } else {
        assert formatter.out + [] == formatter.out;
      }
    }

    method VisitArray(elems: seq<Value>, ghost depth: nat)
      requires PlainElems(elems)
      modifies formatter
      ensures formatter.out == old(formatter.out) + Render(Arr(elems), Minified, depth)
      decreases elems, 0
    {
      formatter.WriteRaw([OPEN_ARRAY]);
      ghost var start := formatter.out;
      ghost var body := RenderElems(elems, Minified, depth + 1);
      var i := 0;
      assert elems[i..] == elems;
      while i < |elems|
        invariant 0 <= i <= |elems| && PlainElems(elems[i..])
        invariant formatter.out + RenderElems(elems[i..], Minified, depth + 1) == start + body
      {
        ElemsFrom(elems, i, Minified, depth + 1);
        ghost var before := formatter.out;
        VisitElement(elems[i], i + 1 == |elems|, depth + 1);
        Associates(before, Line(Render(elems[i], Minified, depth + 1), i + 1 == |elems|, Minified, depth + 1),
                   RenderElems(elems[i + 1..], Minified, depth + 1));
        i := i + 1;
      }
      assert formatter.out + [] == formatter.out;
      formatter.WriteRaw([CLOSE_ARRAY]);
      Closed(old(formatter.out), OPEN_ARRAY, body, CLOSE_ARRAY);
    }

    method VisitMember(m: Member, last: bool, ghost depth: nat)
      requires Plain(m.value)
      modifies formatter
      ensures formatter.out == old(formatter.out) + Line(MemberText(m, Minified, depth), last, Minified, depth)
      decreases m, 2
    {
      formatter.WriteString(m.key);
      formatter.WriteRaw([COLON]);
      Visit(m.value, depth);
      MemberWritten(old(formatter.out), Quoted(m.key), [COLON], Render(m.value, Minified, depth));
      MinifiedLine(old(formatter.out), MemberText(m, Minified, depth), last, depth);
      if !last {
        formatter.WriteRaw([COMMA]);
      } else {
        assert formatter.out + [] == formatter.out;
      }
    }

    method VisitObject(members: seq<Member>, ghost depth: nat)
      requires PlainMembers(members)
      modifies formatter
      ensures formatter.out == old(formatter.out) + Render(Obj(members), Minified, depth)
      decreases members, 0
    {
      formatter.WriteRaw([OPEN_OBJECT]);
      ghost var start := formatter.out;
      ghost var body := RenderMembers(members, Minified, depth + 1);
      var i := 0;
      assert members[i..] == members;
      while i < |members|
        invariant 0 <= i <= |members| && PlainMembers(members[i..])
        invariant formatter.out + RenderMembers(members[i..], Minified, depth + 1) == start + body
      {
        MembersFrom(members, i, Minified, depth + 1);
        ghost var before := formatter.out;
        VisitMember(members[i], i + 1 == |members|, depth + 1);
        Associates(before, Line(MemberText(members[i], Minified, depth + 1), i + 1 == |members|, Minified, depth + 1),
                   RenderMembers(members[i + 1..], Minified, depth + 1));
        i := i + 1;
      }
      assert formatter.out + [] == formatter.out;
      formatter.WriteRaw([CLOSE_OBJECT]);
      Closed(old(formatter.out), OPEN_OBJECT, body, CLOSE_OBJECT);
    }

    method Visit(v: Value, ghost depth: nat)
      requires Plain(v)
      modifies formatter
      ensures formatter.out == old(formatter.out) + Render(v, Minified, depth)
      decreases v, 1
    {
      match v {
        case Null => formatter.WriteRaw(NULL);
        case Bool(b) => formatter.WriteBoolean(b);
        case Int(i) => formatter.WriteInteger(i);
        case Str(s) => formatter.WriteString(s);
        case Arr(elems) => VisitArray(elems, depth);
        case Obj(members) => VisitObject(members, depth);
      }
    }
  }

  class PrettyJsonSerializer {
    const formatter: TextFormatter
    // uint8_t
    var nesting: nat

    constructor ()
      ensures fresh(formatter) && formatter.out == [] && nesting == 0
    {
      formatter := new TextFormatter();
      nesting := 0;
    }

    method WriteIndent()
      modifies formatter
      ensures formatter.out == old(formatter.out) + Tabs(nesting)
    {
      ghost var start := formatter.out;
      var i := 0;
      while i < nesting
        invariant 0 <= i <= nesting
        invariant formatter.out + Tabs(nesting - i) == start + Tabs(nesting)
      {
        ghost var before := formatter.out;
        formatter.WriteRaw([SPACE, SPACE]);
        Associates(before, [SPACE, SPACE], Tabs(nesting - i - 1));
        i := i + 1;
      }
      assert formatter.out + [] == formatter.out;
    }

    method WriteLineEnd(last: bool)
      modifies formatter
      ensures formatter.out == old(formatter.out) + (Comma(last) + NEWLINE)
    {
      assert [] + NEWLINE == NEWLINE;
      formatter.WriteRaw(if last then NEWLINE else [COMMA] + NEWLINE);
    }

    method VisitElement(v: Value, last: bool, ghost depth: nat)
      requires Plain(v) && nesting == depth % 0x100
      modifies this`nesting, formatter
      ensures nesting == old(nesting)
      ensures formatter.out == old(formatter.out) + Line(Render(v, Pretty, depth), last, Pretty, depth)
      decreases v, 2
    {
      WriteIndent();
      Visit(v, depth);
      WriteLineEnd(last);
      PrettyLine(old(formatter.out), Tabs(nesting), Render(v, Pretty, depth), Comma(last) + NEWLINE);
    }

    method VisitArray(elems: seq<Value>, ghost depth: nat)
      requires PlainElems(elems) && nesting == depth % 0x100
      modifies this`nesting, formatter
      ensures nesting == old(nesting)
      ensures formatter.out == old(formatter.out) + Render(Arr(elems), Pretty, depth)
      decreases elems, 1
    {
      if elems == [] {
        formatter.WriteRaw([OPEN_ARRAY, CLOSE_ARRAY]);
        return;
      }
      hide Render, RenderElems, PlainElems, Plain;
      formatter.WriteRaw([OPEN_ARRAY] + NEWLINE);
      nesting := (nesting + 1) % 0x100;
      VisitElements(elems, depth + 1);
      NestingRestored(nesting, depth);
      nesting := (nesting - 1) % 0x100;
      WriteIndent();
      formatter.WriteRaw([CLOSE_ARRAY]);
      ArrayWritten(old(formatter.out), elems, depth);
    }

    /** The loop above. */
    method VisitElements(elems: seq<Value>, ghost depth: nat)
      requires PlainElems(elems) && nesting == depth % 0x100
      modifies this`nesting, formatter
      ensures nesting == old(nesting)
      ensures formatter.out == old(formatter.out) + RenderElems(elems, Pretty, depth)
      decreases elems, 0
    {
      hide Render, RenderElems, Line, PlainElems, Plain, Comma;
      var i := 0;
      assert elems[i..] == elems;
      while i < |elems|
        invariant 0 <= i <= |elems| && PlainElems(elems[i..])
        invariant nesting == depth % 0x100
        invariant formatter.out + RenderElems(elems[i..], Pretty, depth)
                  == old(formatter.out) + RenderElems(elems, Pretty, depth)
      {
        ElemsFrom(elems, i, Pretty, depth);
        ghost var before := formatter.out;
        VisitElement(elems[i], i + 1 == |elems|, depth);
        Associates(before, Line(Render(elems[i], Pretty, depth), i + 1 == |elems|, Pretty, depth),
                   RenderElems(elems[i + 1..], Pretty, depth));
        i := i + 1;
      }
      NothingLeft(elems, [], Pretty, depth);
      assert formatter.out + [] == formatter.out;
    }

    method VisitMember(m: Member, last: bool, ghost depth: nat)
      requires Plain(m.value) && nesting == depth % 0x100
      modifies this`nesting, formatter
      ensures nesting == old(nesting)
      ensures formatter.out == old(formatter.out) + Line(MemberText(m, Pretty, depth), last, Pretty, depth)
      decreases m, 2
    {
      WriteIndent();
      ghost var indented := formatter.out;
      formatter.WriteString(m.key);
      formatter.WriteRaw([COLON, SPACE]);
      Visit(m.value, depth);
      MemberWritten(indented, Quoted(m.key), [COLON, SPACE], Render(m.value, Pretty, depth));
      WriteLineEnd(last);
      PrettyLine(old(formatter.out), Tabs(nesting), MemberText(m, Pretty, depth), Comma(last) + NEWLINE);
    }

    method VisitObject(members: seq<Member>, ghost depth: nat)
      requires PlainMembers(members) && nesting == depth % 0x100
      modifies this`nesting, formatter
      ensures nesting == old(nesting)
      ensures formatter.out == old(formatter.out) + Render(Obj(members), Pretty, depth)
      decreases members, 1
    {
      if members == [] {
        formatter.WriteRaw([OPEN_OBJECT, CLOSE_OBJECT]);
        return;
      }
      hide Render, RenderMembers, PlainMembers, Plain;
      formatter.WriteRaw([OPEN_OBJECT] + NEWLINE);
      nesting := (nesting + 1) % 0x100;
      VisitMembers(members, depth + 1);
      NestingRestored(nesting, depth);
      nesting := (nesting - 1) % 0x100;
      WriteIndent();
      formatter.WriteRaw([CLOSE_OBJECT]);
      ObjectWritten(old(formatter.out), members, depth);
    }

    /** The loop above. */
    method VisitMembers(members: seq<Member>, ghost depth: nat)
      requires PlainMembers(members) && nesting == depth % 0x100
      modifies this`nesting, formatter
      ensures nesting == old(nesting)
      ensures formatter.out == old(formatter.out) + RenderMembers(members, Pretty, depth)
      decreases members, 0
    {
      hide Render, RenderMembers, Line, PlainMembers, Plain, Comma, MemberText;
      var i := 0;
      assert members[i..] == members;
      while i < |members|
        invariant 0 <= i <= |members| && PlainMembers(members[i..])
        invariant nesting == depth % 0x100
        invariant formatter.out + RenderMembers(members[i..], Pretty, depth)
                  == old(formatter.out) + RenderMembers(members, Pretty, depth)
      {
        MembersFrom(members, i, Pretty, depth);
        ghost var before := formatter.out;
        VisitMember(members[i], i + 1 == |members|, depth);
        Associates(before, Line(MemberText(members[i], Pretty, depth), i + 1 == |members|, Pretty, depth),
                   RenderMembers(members[i + 1..], Pretty, depth));
        i := i + 1;
      }
      NothingLeft([], members, Pretty, depth);
      assert formatter.out + [] == formatter.out;
    }

    method Visit(v: Value, ghost depth: nat)
      requires Plain(v) && nesting == depth % 0x100
      modifies this`nesting, formatter
      ensures nesting == old(nesting)
      ensures formatter.out == old(formatter.out) + Render(v, Pretty, depth)
      decreases v, 1
    {
      match v {
        case Null => formatter.WriteRaw(NULL);
        case Bool(b) => formatter.WriteBoolean(b);
        case Int(i) => formatter.WriteInteger(i);
        case Str(s) => formatter.WriteString(s);
        case Arr(elems) => VisitArray(elems, depth);
        case Obj(members) => VisitObject(members, depth);
      }
    }
  }
}

/** Bodies as browsers write them, and that they split into what was written. */
module MultipartBodies {
  import opened Bytes
  import opened Options
  import opened Multipart
  import opened MultipartTheorems

  /** Header lines and the content behind them. */
  datatype Item = Item(lines: seq<bytes>, content: bytes)

  predicate GoodLine(line: bytes) {
    line != [] && CR !in line && LF !in line
  }

  ghost predicate GoodItem(item: Item, boundary: bytes) {
    && (forall line <- item.lines :: GoodLine(line))
    && (forall i: nat :: !OccursAt(item.content, Delimiter(boundary), i))
  }

  function LinesText(lines: seq<bytes>): bytes {
    if lines == [] then [CR, LF] else lines[0] + ([CR, LF] + LinesText(lines[1..]))
  }

  const END: bytes := [DASH, DASH, CR, LF]

  /** Items, each with a delimiter behind it, and the end behind the last one. */
  function ItemsText(items: seq<Item>, boundary: bytes, end: bytes): bytes
    requires items != []
  {
    var more := if |items| == 1 then end else [CR, LF] + ItemsText(items[1..], boundary, end);
    LinesText(items[0].lines) + (items[0].content + Delimiter(boundary) + more)
  }

  function BodyText(items: seq<Item>, boundary: bytes, end: bytes): bytes
    requires items != []
  {
    OpeningLine(boundary) + ItemsText(items, boundary, end)
  }

  function HeaderOf(lines: seq<bytes>, header: Header, parse: LineParser): Header {
    if lines == [] then header else HeaderOf(lines[1..], parse(lines[0], header), parse)
  }

  /** Name and file name carry over from part to part. */
  function PartsOf(items: seq<Item>, header: Header, parse: LineParser): (parts: seq<Part>)
    ensures |parts| == |items|
  {
    if items == [] then []
    else
      var told := HeaderOf(items[0].lines, header.(isFile := false), parse);
      [Part(told, items[0].content)] + PartsOf(items[1..], told, parse)
  }

  lemma {:induction false} LineRead(line: bytes, text: bytes, done: bytes, header: Header, parse: LineParser)
    requires CR !in line && LF !in line
    ensures ReadHeader(line + text, done, header, parse) == ReadHeader(text, done + line, header, parse)
    decreases |line|
  {
    if line == [] {
      assert line + text == text && done + line == done;
    } else {
      assert (line + text)[0] == line[0] && (line + text)[1..] == line[1..] + text;
      assert line[0] in line;
      LineRead(line[1..], text, done + [line[0]], header, parse);
      assert done + [line[0]] + line[1..] == done + line;
    }
  }

  lemma EndOfLineRead(text: bytes, line: bytes, header: Header, parse: LineParser)
    ensures ReadHeader([CR, LF] + text, line, header, parse)
            == if line != [] then ReadHeader(text, [], parse(line, header), parse) else Some((header, text))
  {
    var all := [CR, LF] + text;
    assert all[1..] == [LF] + text && all[1..][1..] == text;
  }

  lemma {:induction false} LinesRead(lines: seq<bytes>, text: bytes, header: Header, parse: LineParser)
    requires forall line <- lines :: GoodLine(line)
    ensures ReadHeader(LinesText(lines) + text, [], header, parse) == Some((HeaderOf(lines, header, parse), text))
    decreases |lines|
  {
    hide ReadHeader;
    if lines == [] {
      EndOfLineRead(text, [], header, parse);
    } else {
      var more := LinesText(lines[1..]) + text;
      assert lines[0] in lines;
      assert LinesText(lines) + text == lines[0] + ([CR, LF] + more);
      LineRead(lines[0], [CR, LF] + more, [], header, parse);
      assert [] + lines[0] == lines[0];
      EndOfLineRead(more, lines[0], header, parse);
      LinesRead(lines[1..], text, parse(lines[0], header), parse);
    }
  }

  /** Content with no delimiter in it ends where the next delimiter begins: none
      can begin in the one and end in the other. */
  lemma ContentEndsThere(content: bytes, more: bytes, boundary: bytes)
    requires GoodBoundary(boundary) && forall i: nat :: !OccursAt(content, Delimiter(boundary), i)
    ensures FirstFrom(content + Delimiter(boundary) + more, Delimiter(boundary), 0) == Some(|content|)
  {
    var d := Delimiter(boundary);
    var text := content + d + more;
    DelimiterHasOneCr(boundary);
    assert text[|content|..|content| + |d|] == d;
    assert OccursAt(text, d, |content|);
    forall j | 0 <= j < |content| ensures !OccursAt(text, d, j) {
      NotAcross(content, d, more, j);
    }
  }

  lemma NotAcross(content: bytes, d: bytes, more: bytes, j: nat)
    requires d != [] && d[0] == CR && CR !in d[1..] && j < |content|
    ensures OccursAt(content + d + more, d, j) ==> OccursAt(content, d, j)
  {
    var text := content + d + more;
    if j + |d| > |content| && j + |d| <= |text| {
      var k := |content| - j;
      assert d[k] in d[1..];
      assert text[j..j + |d|][k] == text[|content|] == d[0];
    } else if j + |d| <= |content| {
      assert text[j..j + |d|] == content[j..j + |d|];
    }
  }

  /** What was written is what it splits into. */
  lemma {:induction false} ItemsSplit(items: seq<Item>, form: Form, header: Header, end: bytes, total: nat)
    requires Good(form) && items != [] && forall item <- items :: GoodItem(item, form.boundary)
    requires |ItemsText(items, form.boundary, end)| <= total && forall position: nat :: form.memory(position)
    requires end != [] && end[0] == DASH
    ensures Split(ItemsText(items, form.boundary, end), form, header, total)
            == (PartsOf(items, header, form.parse), Closed(end))
    decreases |items|
  {
    hide FirstFrom, Delimiter, ReadHeader, SplitContent, Next, OccursAt, GoodLine;
    var item, d := items[0], Delimiter(form.boundary);
    assert GoodItem(item, form.boundary);
    var more := if |items| == 1 then end else [CR, LF] + ItemsText(items[1..], form.boundary, end);
    var told := HeaderOf(item.lines, header.(isFile := false), form.parse);
    LinesRead(item.lines, item.content + d + more, header.(isFile := false), form.parse);
    ContentEndsThere(item.content, more, form.boundary);
    OnePart([], item.content, more, form, told, total);
    assert [] + item.content == item.content;
    MoreSplits(items, more, form, Part(told, item.content), end, total);
    if |items| > 1 {
      ItemsSplit(items[1..], form, told, end, total);
    } else {
      assert items[1..] == [];
    }
  }

  lemma MoreSplits(items: seq<Item>, more: bytes, form: Form, part: Part, end: bytes, total: nat)
    requires items != [] && |more| <= total && end != [] && end[0] == DASH
    requires more == if |items| == 1 then end else [CR, LF] + ItemsText(items[1..], form.boundary, end)
    ensures Next(more, part, form, total)
            == if |items| == 1 then ([], Closed(more))
               else Split(ItemsText(items[1..], form.boundary, end), form, part.header, total)
  {
    hide Split, ItemsText, SplitContent;
    if |items| > 1 {
      assert more[2..] == ItemsText(items[1..], form.boundary, end);
    }
  }

  ghost predicate CanBeSent(form: Form, items: seq<Item>) {
    && Good(form) && items != [] && (forall item <- items :: GoodItem(item, form.boundary))
    && forall position: nat :: form.memory(position)
  }

  /** A body put together from items, in any packets, with its true length announced:
      the items are told, in order; and then the request is handled if a packet ends
      four bytes behind the closing dash. */
  lemma {:induction false} WrittenIsTold(form: Form, items: seq<Item>, end: bytes, packets: seq<bytes>)
    returns (es: seq<Event>)
    requires CanBeSent(form, items) && end != [] && end[0] == DASH
    requires Joined(packets) == BodyText(items, form.boundary, end)
    ensures var t := Packets(Opened(|Joined(packets)|), form, packets);
            var complete := EndsAt(packets, |Joined(packets)| - |end| + 4);
            && AllTold(PartsOf(items, Header([], [], [], false), form.parse), es) && !t.broken
            && t.events == es + (if complete then [Handled] else [])
            && (t.parseState == PARSE_REQ_END <==> complete)
  {
    hide AllTold, Split, ItemsText, Packets, PartsOf, EndsAt, Handed, EarlyEnd;
    var body := Joined(packets);
    var opening := OpeningLine(form.boundary);
    assert body[|opening|..] == ItemsText(items, form.boundary, end);
    ItemsSplit(items, form, Header([], [], [], false), end, |body|);
    NotEarly(packets, |body|);
    var open;
    es, open := BodyIsSplit(form, |body|, packets);
    assert es + [] == es;
  }

  /** With the two dashes and a line end behind the last item it always is handled. */
  lemma {:induction false} ClosedLineIsHandled(form: Form, items: seq<Item>, packets: seq<bytes>)
    requires CanBeSent(form, items) && Joined(packets) == BodyText(items, form.boundary, END)
    ensures Packets(Opened(|Joined(packets)|), form, packets).parseState == PARSE_REQ_END
  {
    hide AllTold, ItemsText, Packets, PartsOf;
    var es := WrittenIsTold(form, items, END, packets);
    ClosedIsHandled(packets, |Joined(packets)|, END);
  }

  /** With the two dashes alone, as the standard allows, it never is. */
  lemma {:induction false} BareDashesWait(form: Form, items: seq<Item>, packets: seq<bytes>)
    requires CanBeSent(form, items) && Joined(packets) == BodyText(items, form.boundary, [DASH, DASH])
    ensures Packets(Opened(|Joined(packets)|), form, packets).parseState == PARSE_REQ_BODY
  {
    hide AllTold, ItemsText, Packets, PartsOf;
    var es := WrittenIsTold(form, items, [DASH, DASH], packets);
    ClosedIsHandled(packets, |Joined(packets)|, [DASH, DASH]);
  }

  // One item with other text behind its delimiter.

  function OddText(item: Item, boundary: bytes, odd: bytes): bytes {
    OpeningLine(boundary) + (LinesText(item.lines) + (item.content + Delimiter(boundary) + odd))
  }

  lemma {:induction false} OddSplit(form: Form, item: Item, odd: bytes, told: Header)
    requires Good(form) && GoodItem(item, form.boundary) && forall position: nat :: form.memory(position)
    requires told == HeaderOf(item.lines, Header([], [], [], false), form.parse)
    ensures var body := OddText(item, form.boundary, odd);
            var text := item.content + Delimiter(form.boundary) + odd;
            && |text| <= |body| && SplitBody(body, form) == SplitContent(text, [], form, told, |body|)
            && FirstFrom(text, Delimiter(form.boundary), 0) == Some(|item.content|)
  {
    hide FirstFrom, Delimiter, ReadHeader, SplitContent, OccursAt, GoodLine;
    var body, opening := OddText(item, form.boundary, odd), OpeningLine(form.boundary);
    var text := item.content + Delimiter(form.boundary) + odd;
    assert body[|opening|..] == LinesText(item.lines) + text;
    LinesRead(item.lines, text, Header([], [], [], false), form.parse);
    ContentEndsThere(item.content, odd, form.boundary);
  }

  /** Text behind the delimiter of a file breaks the request, in any packets. */
  lemma {:induction false} TextBehindFile(form: Form, item: Item, odd: bytes, packets: seq<bytes>)
    requires Good(form) && GoodItem(item, form.boundary) && forall position: nat :: form.memory(position)
    requires HeaderOf(item.lines, Header([], [], [], false), form.parse).isFile && GoesOnOddly(odd)
    requires Joined(packets) == OddText(item, form.boundary, odd)
    ensures Packets(Opened(|Joined(packets)|), form, packets).broken
  {
    hide AllTold, Split, LinesText, Packets, EndsAt, Handed, EarlyEnd, SplitContent, Next, FirstFrom, GoesOnOddly;
    var body := Joined(packets);
    var told := HeaderOf(item.lines, Header([], [], [], false), form.parse);
    OddSplit(form, item, odd, told);
    OnePart([], item.content, odd, form, told, |body|);
    NextIs(odd, Part(told, [] + item.content), form, |body|);
    NotEarly(packets, |body|);
    var es, open := BodyIsSplit(form, |body|, packets);
  }

  /** Behind the delimiter of a field it makes the field be told twice. */
  lemma {:induction false} TextBehindField(form: Form, item: Item, more: bytes, rest: bytes, packets: seq<bytes>)
    requires Good(form) && GoodItem(item, form.boundary) && forall position: nat :: form.memory(position)
    requires !HeaderOf(item.lines, Header([], [], [], false), form.parse).isFile
    requires var d := Delimiter(form.boundary);
             && GoesOnOddly(more + d + rest) && (forall i: nat :: !OccursAt(more, d, i))
             && Joined(packets) == OddText(item, form.boundary, more + d + rest)
    ensures var name := HeaderOf(item.lines, Header([], [], [], false), form.parse).name;
            [Field(name, item.content), Field(name, item.content + Delimiter(form.boundary) + more)]
            <= Packets(Opened(|Joined(packets)|), form, packets).events
  {
    hide Split, LinesText, Packets, EndsAt, Handed, EarlyEnd, SplitContent, FirstFrom, GoesOnOddly, AllTold;
    var body, d := Joined(packets), Delimiter(form.boundary);
    var told := HeaderOf(item.lines, Header([], [], [], false), form.parse);
    var odd := more + d + rest;
    OddSplit(form, item, odd, told);
    ContentEndsThere(more, rest, form.boundary);
    FieldToldTwice(item.content, more, rest, form, told, |body|);
    NotEarly(packets, |body|);
    var es, open := BodyIsSplit(form, |body|, packets);
    TwoFieldsTold(SplitBody(body, form).0, es, Part(told, item.content), Part(told, item.content + d + more));
  }

  lemma {:induction false} FieldTold(parts: seq<Part>, es: seq<Event>)
    requires AllTold(parts, es) && parts != [] && !parts[0].header.isFile
    ensures es != [] && es[0] == Field(parts[0].header.name, parts[0].content) && AllTold(parts[1..], es[1..])
  {
    var i :| 0 <= i <= |es| && Told(parts[0], es[..i]) && AllTold(parts[1..], es[i..]);
    assert |es[..i]| == 1 && es[..i][0] == es[0];
  }

  lemma {:induction false} TwoFieldsTold(parts: seq<Part>, es: seq<Event>, a: Part, b: Part)
    requires AllTold(parts, es) && [a, b] <= parts && !a.header.isFile && !b.header.isFile
    ensures [Field(a.header.name, a.content), Field(b.header.name, b.content)] <= es
  {
    hide AllTold;
    assert parts[0] == [a, b][0] && parts[1..][0] == parts[1] == [a, b][1];
    FieldTold(parts, es);
    FieldTold(parts[1..], es[1..]);
    assert es[1] == es[1..][0];
  }

  // Four bodies, letter by letter.

  function Text(s: string): (r: bytes)
    ensures |r| == |s|
  {
    seq(|s|, i requires 0 <= i < |s| => s[i] as int % 0x100)
  }

  function Sample(isFile: bool): Form {
    FormData([0x42], (line, header: Header) => header.(isFile := isFile), position => true)
  }

  const ITEM: Item := Item([[0x68]], [0x78])

  lemma {:induction false} SampleItem()
    ensures GoodItem(ITEM, [0x42])
  {
  }

  lemma SampleText(end: bytes)
    ensures BodyText([ITEM], [0x42], end) == OddText(ITEM, [0x42], end)
    ensures OddText(ITEM, [0x42], end) == Text("--B\r\nh\r\n\r\nx\r\n--B") + end
  {
    var lines := [[0x68]];
    assert lines[1..] == [];
    assert LinesText(lines) == [0x68, 0x0D, 0x0A, 0x0D, 0x0A];
    assert Text("--B\r\nh\r\n\r\nx\r\n--B")
           == [0x2D, 0x2D, 0x42, 0x0D, 0x0A, 0x68, 0x0D, 0x0A, 0x0D, 0x0A, 0x78, 0x0D, 0x0A, 0x2D, 0x2D, 0x42];
    assert OddText(ITEM, [0x42], end)
           == [0x2D, 0x2D, 0x42, 0x0D, 0x0A] + ([0x68, 0x0D, 0x0A, 0x0D, 0x0A]
                                                + ([0x78] + [0x0D, 0x0A, 0x2D, 0x2D, 0x42] + end));
  }

  /** A closed body with one field: told once, and handled. */
  lemma {:induction false} FieldOnce(packets: seq<bytes>)
    requires Joined(packets) == Text("--B\r\nh\r\n\r\nx\r\n--B") + Text("--\r\n")
    ensures Packets(Opened(|Joined(packets)|), Sample(false), packets).events == [Field([], [0x78]), Handled]
    ensures !Packets(Opened(|Joined(packets)|), Sample(false), packets).broken
  {
    hide AllTold, Packets, EndsAt, BodyText, ItemsText;
    SampleItem();
    SampleText(END);
    assert Text("--\r\n") == END;
    var es := WrittenIsTold(Sample(false), [ITEM], END, packets);
    ClosedLineIsHandled(Sample(false), [ITEM], packets);
    var parts := PartsOf([ITEM], Header([], [], [], false), Sample(false).parse);
    SampleParts(parts);
    FieldTold(parts, es);
    NothingTold(es[1..]);
  }

  lemma SampleParts(parts: seq<Part>)
    requires parts == PartsOf([ITEM], Header([], [], [], false), Sample(false).parse)
    ensures parts == [Part(Header([], [], [], false), [0x78])] && parts[1..] == []
  {
    assert HeaderOf([[0x68]][1..], Header([], [], [], false), Sample(false).parse) == Header([], [], [], false);
    assert [ITEM][1..] == [];
  }

  lemma {:induction false} NothingTold(es: seq<Event>)
    requires AllTold([], es)
    ensures es == []
  {
  }

  /** No line end behind the dashes: not handled, whatever the packets are. */
  lemma {:induction false} BareDashes(packets: seq<bytes>)
    requires Joined(packets) == Text("--B\r\nh\r\n\r\nx\r\n--B") + Text("--")
    ensures Packets(Opened(|Joined(packets)|), Sample(false), packets).parseState == PARSE_REQ_BODY
  {
    hide Packets, BodyText, ItemsText;
    SampleItem();
    SampleText([DASH, DASH]);
    assert Text("--") == [DASH, DASH];
    BareDashesWait(Sample(false), [ITEM], packets);
  }

  /** A question mark behind the delimiter of a file: broken. */
  lemma {:induction false} BrokenFile(packets: seq<bytes>)
    requires Joined(packets) == Text("--B\r\nh\r\n\r\nx\r\n--B") + Text("?")
    ensures Packets(Opened(|Joined(packets)|), Sample(true), packets).broken
  {
    hide Packets;
    SampleItem();
    SampleText([0x3F]);
    assert Text("?") == [0x3F];
    HeaderIsFile();
    TextBehindFile(Sample(true), ITEM, [0x3F], packets);
  }

  lemma HeaderIsFile()
    ensures HeaderOf(ITEM.lines, Header([], [], [], false), Sample(true).parse).isFile
  {
    assert HeaderOf([[0x68]][1..], Header([], [], [], true), Sample(true).parse).isFile;
  }

  /** A question mark behind the delimiter of a field, and the delimiter again: told as
      "x" and again with the delimiter in it. */
  lemma {:induction false} FieldTwice(packets: seq<bytes>)
    requires Joined(packets) == Text("--B\r\nh\r\n\r\nx\r\n--B") + Text("?\r\n--B--\r\n")
    ensures [Field([], [0x78]), Field([], Text("x\r\n--B?"))]
            <= Packets(Opened(|Joined(packets)|), Sample(false), packets).events
  {
    hide Packets;
    SampleItem();
    var odd := [0x3F] + Delimiter([0x42]) + END;
    SampleText(odd);
    assert Text("?\r\n--B--\r\n") == odd;
    assert Text("x\r\n--B?") == [0x78] + Delimiter([0x42]) + [0x3F];
    HeaderIsField();
    TextBehindField(Sample(false), ITEM, [0x3F], END, packets);
  }

  lemma HeaderIsField()
    ensures HeaderOf(ITEM.lines, Header([], [], [], false), Sample(false).parse) == Header([], [], [], false)
  {
    assert HeaderOf([[0x68]][1..], Header([], [], [], false), Sample(false).parse) == Header([], [], [], false);
  }
}

/** The parser agrees with splitting the body at the first delimiter. */
module MultipartTheorems {
  import opened Bytes
  import opened Options
  import opened Multipart

  // The reference: a part is its header lines and all up to the delimiter.

  /** Section 5.1.1 of RFC 2046 allows no CR in a boundary, and 70 bytes. */
  ghost predicate GoodBoundary(boundary: bytes) {
    1 <= |boundary| <= 0xFF && CR !in boundary
  }

  ghost predicate Good(form: Form) {
    GoodBoundary(form.boundary)
  }

  function Delimiter(boundary: bytes): bytes {
    [CR, LF, DASH, DASH] + boundary
  }

  predicate OccursAt(text: bytes, d: bytes, i: nat) {
    i + |d| <= |text| && text[i..i + |d|] == d
  }

  /** Where the delimiter first occurs. */
  function FirstFrom(text: bytes, d: bytes, i: nat): (r: Option<nat>)
    ensures r.None? ==> forall j | i <= j :: !OccursAt(text, d, j)
    ensures r.Some? ==> i <= r.value && OccursAt(text, d, r.value)
                        && forall j | i <= j < r.value :: !OccursAt(text, d, j)
    decreases |text| - i
  {
    if i + |d| > |text| then None
    else if OccursAt(text, d, i) then Some(i)
    else FirstFrom(text, d, i + 1)
  }

  datatype Part = Part(header: Header, content: bytes)

  /** How a text ends: with a dash behind a delimiter and what follows it; in the
      middle; with a file for which there is no memory; or with something else
      behind the delimiter of a file. */
  datatype Ending = Closed(end: bytes) | Unfinished | Refused | Misread

  /** Header lines up to the first empty one; the carriage returns do not count. */
  function ReadHeader(text: bytes, line: bytes, header: Header, parse: LineParser): (r: Option<(Header, bytes)>)
    ensures r.Some? ==> |r.value.1| < |text|
    decreases |text|
  {
    if text == [] then None
    else if text[0] == CR then ReadHeader(text[1..], line, header, parse)
    else if text[0] != LF then ReadHeader(text[1..], line + [text[0]], header, parse)
    else if line != [] then ReadHeader(text[1..], [], parse(line, header), parse)
    else Some((header, text[1..]))
  }

  /** The parts from a first header line on, where the text ends a body of so many
      bytes. Name and file name carry over from part to part. */
  function Split(text: bytes, form: Form, header: Header, total: nat): (seq<Part>, Ending)
    requires |text| <= total
    decreases |text|, 0
  {
    match ReadHeader(text, [], header.(isFile := false), form.parse)
    case None => ([], Unfinished)
    case Some((told, rest)) =>
      if told.isFile && !form.memory(total - |rest| - 1) then ([], Refused)
      else SplitContent(rest, [], form, told, total)
  }

  /** Content up to the first delimiter is a part. Behind a field, text that does
      not go on as it should makes it a part once more, with the delimiter and
      what follows it in its content. */
  function SplitContent(text: bytes, before: bytes, form: Form, told: Header, total: nat): (seq<Part>, Ending)
    requires |text| <= total
    decreases |text|, 0
  {
    match FirstFrom(text, Delimiter(form.boundary), 0)
    case None => ([], Unfinished)
    case Some(i) =>
      var part := Part(told, before + text[..i]);
      var after := text[i + |Delimiter(form.boundary)|..];
      var next := Next(after, part, form, total);
      ([part] + next.0, next.1)
  }

  function Next(after: bytes, part: Part, form: Form, total: nat): (seq<Part>, Ending)
    requires |after| <= total
    decreases |after|, 1
  {
    if after == [] || after == [CR] then ([], Unfinished)
    else if after[0] == DASH then ([], Closed(after))
    else if after[0] == CR && after[1] == LF then Split(after[2..], form, part.header, total)
    else if part.header.isFile then ([], Misread)
    else SplitContent(after, part.content + Delimiter(form.boundary), form, part.header, total)
  }

  // One item.

  /** What chunks have handed over, if they follow one another from the first byte
      on and fit the buffer. */
  function Handed(chunks: seq<Event>, filename: bytes): Option<bytes>
    decreases |chunks|
  {
    if chunks == [] then Some([])
    else
      var last := chunks[|chunks| - 1];
      match Handed(chunks[..|chunks| - 1], filename)
      case None => None
      case Some(data) =>
        if last.Chunk? && last.filename == filename && !last.final && 0 < |last.data| <= UPLOAD_BUFFER
            && last.offset == |data|
        then Some(data + last.data) else None
  }

  lemma HandedMore(chunks: seq<Event>, c: Event, filename: bytes)
    requires Handed(chunks, filename).Some?
    requires c.Chunk? && c == Chunk(filename, |Handed(chunks, filename).value|, c.data, false)
             && 0 < |c.data| <= UPLOAD_BUFFER
    ensures Handed(chunks + [c], filename) == Some(Handed(chunks, filename).value + c.data)
  {
    assert (chunks + [c])[..|chunks|] == chunks;
  }

  /** What has been written of an item whose first chunk, if any, is event number k. */
  function Written(s: State, k: nat): Option<bytes>
    requires k <= |s.events|
  {
    if !s.header.isFile then Some(s.itemValue)
    else
      match Handed(s.events[k..], s.header.filename)
      case None => None
      case Some(data) =>
        if s.itemBuffer.Some? && |s.itemBuffer.value| < UPLOAD_BUFFER then Some(data + s.itemBuffer.value) else None
  }

  /** In the middle of an item: these bytes are written, and the request has been
      told nothing else since. */
  ghost predicate Inside(s: State, written: bytes, told: seq<Event>) {
    && !s.broken && s.itemSize == |written| && s.parsedLength > 0 && s.temp == [] && told <= s.events
    && (!s.header.isFile ==> s.events == told)
    && Written(s, |told|) == Some(written)
  }

  lemma WrittenOne(s: State, b: byte, last: bool, written: bytes, told: seq<Event>)
    requires Inside(s, written, told)
    ensures var t := WriteByte(s, b, last);
            Inside(t, written + [b], told)
            && t.phase == s.phase && t.header == s.header && t.parsedLength == s.parsedLength
  {
    if s.header.isFile {
      var k := |told|;
      var buffer := s.itemBuffer.value;
      var data := Handed(s.events[k..], s.header.filename).value;
      var more := buffer + [b];
      assert data + buffer + [b] == data + more;
      if last || |more| == UPLOAD_BUFFER {
        var c := Chunk(s.header.filename, |data|, more, false);
        HandedMore(s.events[k..], c, s.header.filename);
        assert (s.events + [c])[k..] == s.events[k..] + [c];
        assert data + more + [] == data + more;
      }
    }
  }

  lemma {:induction false} WrittenMore(s: State, bs: bytes, last: bool, written: bytes, told: seq<Event>)
    requires Inside(s, written, told)
    ensures var t := WriteAll(s, bs, last);
            Inside(t, written + bs, told)
            && t.phase == s.phase && t.header == s.header && t.parsedLength == s.parsedLength
    decreases |bs|
  {
    if bs == [] {
      assert written + bs == written;
    } else {
      WrittenOne(s, bs[0], last, written, told);
      WrittenMore(WriteByte(s, bs[0], last), bs[1..], last, written + [bs[0]], told);
      assert written + [bs[0]] + bs[1..] == written + bs;
    }
  }

  // The delimiter has one CR, in front: nothing else has to be kept in mind.

  ghost predicate EndsWith(raw: bytes, d: bytes, k: nat) {
    k <= |raw| && k <= |d| && raw[|raw| - k..] == d[..k]
  }

  /** The one start of the delimiter that the bytes so far end with. */
  ghost predicate Matched(raw: bytes, d: bytes, m: nat) {
    EndsWith(raw, d, m) && forall k | 1 <= k <= |d| && EndsWith(raw, d, k) :: k == m
  }

  lemma EndsWithOneMore(raw: bytes, d: bytes, b: byte, k: nat)
    requires 1 <= k <= |d|
    ensures EndsWith(raw + [b], d, k) <==> EndsWith(raw, d, k - 1) && d[k - 1] == b
  {
    var all := raw + [b];
    if k <= |all| {
      assert all[|all| - k..] == raw[|raw| - (k - 1)..] + [b];
      assert d[..k] == d[..k - 1] + [d[k - 1]];
      if all[|all| - k..] == d[..k] {
        assert all[|all| - k..][k - 1] == b;
        assert all[|all| - k..][..k - 1] == d[..k][..k - 1];
      }
    }
  }

  function MatchedNext(d: bytes, m: nat, b: byte): nat
    requires m < |d|
  {
    if b == d[m] then m + 1 else if b == CR then 1 else 0
  }

  lemma MatchGoesOn(raw: bytes, d: bytes, m: nat, b: byte)
    requires d != [] && d[0] == CR && CR !in d[1..] && Matched(raw, d, m) && m < |d|
    ensures Matched(raw + [b], d, MatchedNext(d, m, b))
  {
    var n := MatchedNext(d, m, b);
    assert EndsWith(raw + [b], d, 0);
    assert EndsWith(raw, d, 0);
    if n > 0 {
      EndsWithOneMore(raw, d, b, n);
    }
    forall k | 1 <= k <= |d| && EndsWith(raw + [b], d, k) ensures k == n {
      EndsWithOneMore(raw, d, b, k);
      assert k > 1 ==> d[k - 1] in d[1..];
      assert m > 0 ==> d[m] in d[1..];
    }
  }

  lemma EndsWhereItOccurs(raw: bytes, more: bytes, d: bytes)
    requires |d| <= |raw|
    ensures EndsWith(raw, d, |d|) <==> OccursAt(raw + more, d, |raw| - |d|)
  {
    var i := |raw| - |d|;
    assert (raw + more)[i..i + |d|] == raw[i..];
    assert d[..|d|] == d;
  }

  // One byte of an item.

  function PhaseOf(m: nat): Phase {
    if m == 0 then WAIT_FOR_RETURN1 else if m == 1 then EXPECT_FEED1 else if m == 2 then EXPECT_DASH1
    else if m == 3 then EXPECT_DASH2 else BOUNDARY_OR_DATA
  }

  /** The first m bytes of the delimiter have just been seen. */
  predicate At(s: State, m: nat) {
    s.phase == PhaseOf(m) && (m >= 4 ==> s.boundaryPosition == m - 4)
  }

  lemma StepMatches(s: State, form: Form, data: byte, last: bool, m: nat)
    requires Good(form) && At(s, m) && s.parsedLength > 0 && m < |Delimiter(form.boundary)|
    requires data == Delimiter(form.boundary)[m]
    ensures var t := Step(s, form, data, last);
            if m + 1 == |Delimiter(form.boundary)| then
              t == Finished(s.(phase := DASH3_OR_RETURN2)).(parsedLength := s.parsedLength + 1)
            else
              At(t, m + 1) && t == s.(phase := t.phase, boundaryPosition := t.boundaryPosition,
                                      parsedLength := s.parsedLength + 1)
  {
    assert m >= 4 ==> Delimiter(form.boundary)[m] == form.boundary[m - 4];
  }

  lemma StepPushesBack(s: State, form: Form, data: byte, last: bool, m: nat)
    requires Good(form) && At(s, m) && s.parsedLength > 0 && m < |Delimiter(form.boundary)|
    requires data != Delimiter(form.boundary)[m]
    ensures Step(s, form, data, last)
            == PushedBack(s, Delimiter(form.boundary)[..m], data, last).(parsedLength := s.parsedLength + 1)
  {
    assert m >= 4 ==> Delimiter(form.boundary)[m] == form.boundary[m - 4];
    var d := Delimiter(form.boundary);
    if m == 0 {
      assert d[..m] == [] && s.(phase := WAIT_FOR_RETURN1) == s;
    } else if m == 1 {
      assert d[..m] == [CR];
    } else if m == 2 {
      assert d[..m] == [CR, LF];
    } else if m == 3 {
      assert d[..m] == [CR, LF, DASH];
    } else {
      assert d[..m] == [CR, LF, DASH, DASH] + form.boundary[..m - 4];
    }
  }

  lemma Unmoved(s: State, t: State, written: bytes, told: seq<Event>)
    requires Inside(s, written, told) && t.parsedLength > 0
    requires t == s.(phase := t.phase, boundaryPosition := t.boundaryPosition, parsedLength := t.parsedLength)
    ensures Inside(t, written, told)
  {
  }

  lemma PushedBackIsWritten(s: State, bs: bytes, data: byte, last: bool, written: bytes, told: seq<Event>)
    requires Inside(s, written, told)
    ensures var t := PushedBack(s, bs, data, last).(parsedLength := s.parsedLength + 1);
            At(t, if data == CR then 1 else 0) && t.header == s.header
            && Inside(t, written + bs + (if data == CR then [] else [data]), told)
  {
    var w := s.(phase := WAIT_FOR_RETURN1);
    Unmoved(s, w, written, told);
    WrittenMore(w, bs, last, written, told);
    var u := WriteAll(w, bs, last);
    if data == CR {
      assert written + bs + [] == written + bs;
      Unmoved(u, u.(phase := EXPECT_FEED1, parsedLength := s.parsedLength + 1), written + bs, told);
    } else {
      WrittenOne(u, data, last, written + bs, told);
      var v := WriteByte(u, data, last);
      Unmoved(v, v.(parsedLength := s.parsedLength + 1), written + bs + [data], told);
    }
  }

  /** A byte that does not end the item. */
  lemma InsideGoesOn(s: State, form: Form, data: byte, last: bool, m: nat,
                     written: bytes, told: seq<Event>) returns (more: bytes)
    requires Good(form) && At(s, m) && m < |Delimiter(form.boundary)| && Inside(s, written, told)
    requires MatchedNext(Delimiter(form.boundary), m, data) < |Delimiter(form.boundary)|
    ensures var t := Step(s, form, data, last);
            var n := MatchedNext(Delimiter(form.boundary), m, data);
            At(t, n) && t.header == s.header && Inside(t, more, told)
            && more + Delimiter(form.boundary)[..n] == written + Delimiter(form.boundary)[..m] + [data]
  {
    var d := Delimiter(form.boundary);
    if data == d[m] {
      StepMatches(s, form, data, last, m);
      var t := Step(s, form, data, last);
      Unmoved(s, t, written, told);
      more := written;
      assert d[..m + 1] == d[..m] + [data];
      Associates(written, d[..m], [data]);
    } else {
      StepPushesBack(s, form, data, last, m);
      PushedBackIsWritten(s, d[..m], data, last, written, told);
      more := written + d[..m] + if data == CR then [] else [data];
      assert d[..1] == [CR] && d[..0] == [];
    }
  }

  // The end of an item.

  /** What the request is told of a part: a field, or a file in chunks of which
      the last is the final one, and then the file. Of an empty file nothing is
      told. */
  ghost predicate Told(part: Part, es: seq<Event>) {
    var h := part.header;
    if !h.isFile then es == [Field(h.name, part.content)]
    else if part.content == [] then es == []
    else
      && |es| >= 2 && es[|es| - 1] == File(h.name, h.filename, |part.content|)
      && var last := es[|es| - 2];
         last.Chunk? && last.final && last.filename == h.filename && |last.data| < UPLOAD_BUFFER
         && last.offset + |last.data| == |part.content|
         && last.data == part.content[last.offset..]
         && Handed(es[..|es| - 2], h.filename) == Some(part.content[..last.offset])
  }

  /** Behind the delimiter of an item, all of it told. */
  ghost predicate Behind(t: State, header: Header, told: seq<Event>) {
    t.phase == DASH3_OR_RETURN2 && t.header == header && !t.broken && t.parsedLength > 0 && t.temp == []
        && t.events == told
  }

  lemma ItemEnds(s: State, written: bytes, told: seq<Event>) returns (es: seq<Event>)
    requires Inside(s, written, told)
    ensures Behind(Finished(s.(phase := DASH3_OR_RETURN2)).(parsedLength := s.parsedLength + 1), s.header, told + es)
    ensures Told(Part(s.header, written), es)
  {
    var k := |told|;
    var cs := s.events[k..];
    assert told + cs == s.events;
    if !s.header.isFile {
      es := [Field(s.header.name, written)];
    } else {
      var data := Handed(cs, s.header.filename).value;
      var buffer := s.itemBuffer.value;
      if written == [] {
        NothingHanded(cs, s.header.filename);
        es := [];
      } else {
        var c := Chunk(s.header.filename, |data|, buffer, true);
        var f := File(s.header.name, s.header.filename, |written|);
        es := cs + [c] + [f];
        assert es[..|cs|] == cs && es[|cs|] == c;
        assert told + es == s.events + [c] + [f];
      }
    }
  }

  lemma NothingHanded(chunks: seq<Event>, filename: bytes)
    requires Handed(chunks, filename) == Some([])
    ensures chunks == []
  {
  }

  /** A field goes on behind its delimiter. */
  lemma FieldGoesOn(s: State, written: bytes, told: seq<Event>)
    requires Inside(s, written, told) && !s.header.isFile
    ensures var t := Finished(s.(phase := DASH3_OR_RETURN2)).(parsedLength := s.parsedLength + 1);
            Inside(t, written, t.events)
  {
  }

  // A whole item.

  lemma DelimiterHasOneCr(boundary: bytes)
    requires GoodBoundary(boundary)
    ensures var d := Delimiter(boundary); d != [] && d[0] == CR && CR !in d[1..]
  {
    assert Delimiter(boundary)[1..] == [LF, DASH, DASH] + boundary;
  }

  lemma RunOne(s: State, form: Form, data: bytes, lasts: seq<bool>) returns (u: State)
    requires |lasts| == |data| && data != []
    ensures u == Step(s, form, data[0], lasts[0])
    ensures Run(s, form, data, lasts) == Run(u, form, data[1..], lasts[1..])
  {
    u := Step(s, form, data[0], lasts[0]);
  }

  lemma DropAgain(more: bytes, lasts: seq<bool>, n: nat)
    requires n + 1 <= |more| && |lasts| == |more|
    ensures more[1..][n..] == more[n + 1..] && lasts[1..][n..] == lasts[n + 1..]
  {
  }

  /** All but the last m bytes of what was seen is written, and they are the one
      start of the delimiter that it ends with. */
  ghost predicate Reading(s: State, boundary: bytes, before: bytes, raw: bytes, m: nat, written: bytes,
                          told: seq<Event>) {
    var d := Delimiter(boundary);
    && m < |d| && At(s, m) && Inside(s, written, told) && before + raw == written + d[..m] && Matched(raw, d, m)
  }

  lemma ReadingStarts(s: State, boundary: bytes, before: bytes, told: seq<Event>)
    requires At(s, 0) && Inside(s, before, told)
    ensures Reading(s, boundary, before, [], 0, before, told)
  {
    assert Delimiter(boundary)[..0] == [] && before + [] == before;
  }

  /** A byte of an item that does not complete the delimiter. */
  lemma {:induction false} ByteRead(s: State, form: Form, b: byte, last: bool, before: bytes, raw: bytes, m: nat,
                                    written: bytes, told: seq<Event>)
    returns (k: nat, so: bytes)
    requires Good(form) && Reading(s, form.boundary, before, raw, m, written, told)
    requires MatchedNext(Delimiter(form.boundary), m, b) < |Delimiter(form.boundary)|
    ensures var u := Step(s, form, b, last);
            u.header == s.header && Reading(u, form.boundary, before, raw + [b], k, so, told)
  {
    var d := Delimiter(form.boundary);
    DelimiterHasOneCr(form.boundary);
    MatchGoesOn(raw, d, m, b);
    k := MatchedNext(d, m, b);
    so := InsideGoesOn(s, form, b, last, m, written, told);
    Associates(written, d[..m], [b]);
    Associates(before, raw, [b]);
  }

  /** From inside an item to the end of the delimiter that first occurs. */
  lemma {:induction false} ItemRead(s: State, form: Form, more: bytes, lasts: seq<bool>, text: bytes, before: bytes,
                                    raw: bytes, m: nat, written: bytes, told: seq<Event>, part: Part, n: nat)
    returns (t: State, u: State, es: seq<Event>)
    requires Good(form) && |lasts| == |more| && text == raw + more
    requires Reading(s, form.boundary, before, raw, m, written, told)
    requires FirstFrom(text, Delimiter(form.boundary), 0) == Some(|part.content| - |before|)
    requires |before| <= |part.content| && part == Part(s.header, before + text[..|part.content| - |before|])
    requires 0 < n <= |more| && |raw| + n + |before| == |part.content| + |Delimiter(form.boundary)|
    ensures Run(s, form, more, lasts) == Run(t, form, more[n..], lasts[n..])
    ensures Behind(t, s.header, told + es) && Told(part, es)
    ensures u.header == s.header && Inside(u, part.content, told)
    ensures t == Finished(u.(phase := DASH3_OR_RETURN2)).(parsedLength := u.parsedLength + 1)
    decreases |more|
  {
    hide Step, Reading, Told, FirstFrom, Behind, Inside, Finished;
    var d := Delimiter(form.boundary);
    var v := RunOne(s, form, more, lasts);
    var next := raw + [more[0]];
    assert next + more[1..] == text;
    var done := DelimiterDone(s, form, more, text, before, raw, m, written, told, part, n);
    if done {
      t, u := v, s;
      es := LastByteRead(s, form, more, lasts[0], text, before, raw, m, written, told, part, n);
    } else {
      var k, so := ByteRead(s, form, more[0], lasts[0], before, raw, m, written, told);
      t, u, es := ItemRead(v, form, more[1..], lasts[1..], text, before, next, k, so, told, part, n - 1);
      DropAgain(more, lasts, n - 1);
    }
  }

  /** The delimiter is complete with its last byte, and not before. */
  lemma {:induction false} DelimiterDone(s: State, form: Form, more: bytes, text: bytes, before: bytes,
                                         raw: bytes, m: nat, written: bytes, told: seq<Event>, part: Part, n: nat)
    returns (done: bool)
    requires Good(form) && more != [] && text == raw + more
    requires Reading(s, form.boundary, before, raw, m, written, told)
    requires FirstFrom(text, Delimiter(form.boundary), 0) == Some(|part.content| - |before|)
    requires 0 < n && |raw| + n + |before| == |part.content| + |Delimiter(form.boundary)|
    ensures done <==> MatchedNext(Delimiter(form.boundary), m, more[0]) == |Delimiter(form.boundary)|
    ensures done <==> n == 1
    ensures m < |Delimiter(form.boundary)|
  {
    var d := Delimiter(form.boundary);
    var next := raw + [more[0]];
    assert next + more[1..] == text;
    DelimiterHasOneCr(form.boundary);
    MatchGoesOn(raw, d, m, more[0]);
    hide Reading, Matched, FirstFrom, OccursAt;
    var k := MatchedNext(d, m, more[0]);
    done := k == |d|;
    if done {
      EndIsFirst(next, more[1..], d, |part.content| - |before|);
    } else {
      NotYet(next, more[1..], d, k, |part.content| - |before|);
    }
  }

  lemma {:induction false} LastByteRead(s: State, form: Form, more: bytes, last: bool, text: bytes, before: bytes,
                                        raw: bytes, m: nat, written: bytes, told: seq<Event>, part: Part, n: nat)
    returns (es: seq<Event>)
    requires Good(form) && more != [] && text == raw + more
    requires Reading(s, form.boundary, before, raw, m, written, told)
    requires MatchedNext(Delimiter(form.boundary), m, more[0]) == |Delimiter(form.boundary)|
    requires |before| <= |part.content| && |part.content| - |before| <= |text|
    requires part == Part(s.header, before + text[..|part.content| - |before|])
    requires n == 1 && |raw| + n + |before| == |part.content| + |Delimiter(form.boundary)|
    ensures var t := Step(s, form, more[0], last);
            Behind(t, s.header, told + es) && Told(part, es)
            && t == Finished(s.(phase := DASH3_OR_RETURN2)).(parsedLength := s.parsedLength + 1)
    ensures Inside(s, part.content, told)
  {
    var d := Delimiter(form.boundary);
    var i := |part.content| - |before|;
    WrittenBefore(before, raw, written, d[..m], i);
    assert text[..i] == raw[..i];
    hide Step, Told, Behind, Inside, Finished;
    StepMatches(s, form, more[0], last, m);
    es := ItemEnds(s, written, told);
  }

  lemma WrittenBefore(before: bytes, raw: bytes, written: bytes, tail: bytes, i: nat)
    requires before + raw == written + tail && |raw| == i + |tail|
    ensures before + raw[..i] == written
  {
    assert (before + raw)[..|before| + i] == before + raw[..i];
    assert (written + tail)[..|written|] == written;
  }

  lemma EndIsFirst(raw: bytes, more: bytes, d: bytes, i: nat)
    requires d != [] && Matched(raw, d, |d|) && FirstFrom(raw + more, d, 0) == Some(i) && |raw| <= i + |d|
    ensures |raw| == i + |d|
  {
    EndsWhereItOccurs(raw, more, d);
  }

  lemma NotYet(raw: bytes, more: bytes, d: bytes, k: nat, i: nat)
    requires d != [] && Matched(raw, d, k) && k != |d| && FirstFrom(raw + more, d, 0) == Some(i) && |raw| <= i + |d|
    ensures |raw| < i + |d|
  {
    if |raw| == i + |d| {
      EndsWhereItOccurs(raw, more, d);
    }
  }

  // What every byte keeps.

  lemma {:induction false} WrittenKeeps(s: State, bs: bytes, last: bool)
    ensures var t := WriteAll(s, bs, last);
            && t.phase == s.phase && t.contentLength == s.contentLength && t.parsedLength == s.parsedLength
            && (s.broken ==> t.broken) && s.events <= t.events && t.parseState == s.parseState
    decreases |bs|
  {
    if bs == [] {
    } else {
      WrittenKeeps(WriteByte(s, bs[0], last), bs[1..], last);
    }
  }

  lemma PushedBackKeeps(s: State, bs: bytes, data: byte, last: bool)
    ensures var t := PushedBack(s, bs, data, last);
            && t.phase in {WAIT_FOR_RETURN1, EXPECT_FEED1} && t.contentLength == s.contentLength
            && (s.broken ==> t.broken) && s.events <= t.events && t.parseState == s.parseState
  {
    WrittenKeeps(s.(phase := WAIT_FOR_RETURN1), bs, last);
  }

  lemma WaitingKeeps(s: State, data: byte, last: bool)
    ensures var t := Waiting(s, data, last);
            && (t.phase == s.phase || t.phase == EXPECT_FEED1) && t.contentLength == s.contentLength
            && (s.broken ==> t.broken) && s.events <= t.events && t.parseState == s.parseState
  {
  }

  lemma FinishedKeeps(s: State)
    ensures var t := Finished(s);
            && t.phase == s.phase && t.contentLength == s.contentLength
            && (s.broken ==> t.broken) && s.events <= t.events && t.parseState == s.parseState
  {
  }

  lemma HeadKeeps(s: State, form: Form, data: byte)
    requires s.phase == EXPECT_BOUNDARY || s.phase == PARSE_HEADERS
    ensures forall t | t == HeaderByte(s, form, data) || t == Opening(s, form.boundary, data) ::
              && t.phase != PARSING_FINISHED && t.contentLength == s.contentLength
              && t.broken == s.broken && t.events == s.events && t.parseState == s.parseState
  {
  }

  /** Nothing told is taken back, nothing broken mended, and the length of the
      body changes only with the dash that ends it. */
  lemma StepKeeps(s: State, form: Form, data: byte, last: bool)
    ensures var t := Step(s, form, data, last);
            && t.parsedLength == s.parsedLength + 1 && (s.broken ==> t.broken) && s.events <= t.events
            && t.parseState == s.parseState
            && (s.parsedLength > 0 && s.phase == PARSING_FINISHED ==> t == s.(parsedLength := s.parsedLength + 1))
            && (s.parsedLength == 0 || s.phase != PARSING_FINISHED ==>
                  t.contentLength == if t.phase == PARSING_FINISHED then s.parsedLength + 4 else s.contentLength)
  {
    hide PushedBack, WriteAll, WriteByte, Waiting, Finished, HeaderByte, Opening;
    var u := Begun(s);
    var d := [CR, LF, DASH, DASH] + form.boundary;
    match u.phase {
      case WAIT_FOR_RETURN1 => WaitingKeeps(u, data, last);
      case EXPECT_BOUNDARY => HeadKeeps(u, form, data);
      case PARSE_HEADERS => HeadKeeps(u, form, data);
      case EXPECT_FEED1 => PushedBackKeeps(u, [CR], data, last);
      case EXPECT_DASH1 => PushedBackKeeps(u, [CR, LF], data, last);
      case EXPECT_DASH2 => PushedBackKeeps(u, [CR, LF, DASH], data, last);
      case BOUNDARY_OR_DATA =>
        FinishedKeeps(u.(phase := DASH3_OR_RETURN2));
        if u.boundaryPosition <= |form.boundary| {
          PushedBackKeeps(u, [CR, LF, DASH, DASH] + form.boundary[..u.boundaryPosition], data, last);
        }
      case DASH3_OR_RETURN2 => PushedBackKeeps(u, d, data, last);
      case EXPECT_FEED2 => PushedBackKeeps(u, d + [CR], data, last);
      case _ =>
    }
  }

  lemma {:induction false} RunKeeps(s: State, form: Form, data: bytes, lasts: seq<bool>)
    requires |lasts| == |data|
    ensures var t := Run(s, form, data, lasts);
            && t.parsedLength == s.parsedLength + |data| && (s.broken ==> t.broken) && s.events <= t.events
            && t.parseState == s.parseState
            && (s.parsedLength > 0 && s.phase == PARSING_FINISHED ==> t == s.(parsedLength := s.parsedLength + |data|))
            && (s.parsedLength == 0 || s.phase != PARSING_FINISHED ==>
                  if t.phase == PARSING_FINISHED && data != [] then t.contentLength >= s.parsedLength + 4
                  else t.contentLength == s.contentLength)
    decreases |data|
  {
    hide Step;
    if data == [] {
    } else {
      var u := RunOne(s, form, data, lasts);
      StepKeeps(s, form, data[0], lasts[0]);
      RunKeeps(u, form, data[1..], lasts[1..]);
    }
  }

  // A whole body.

  /** What the request has been told of some parts, one after another. */
  ghost predicate AllTold(parts: seq<Part>, es: seq<Event>)
    decreases |parts|
  {
    if parts == [] then es == []
    else exists i | 0 <= i <= |es| :: Told(parts[0], es[..i]) && AllTold(parts[1..], es[i..])
  }

  /** A text is read as it splits: the parts are told; beyond them only chunks of
      a file that is not finished; and the request breaks exactly where the text
      is misread. */
  ghost predicate Outcome(told: seq<Event>, t: State, split: (seq<Part>, Ending), es: seq<Event>, open: seq<Event>) {
    && AllTold(split.0, es)
    && (t.broken <==> split.1.Misread?)
    && (split.1.Misread? ==> told + es <= t.events)
    && (!split.1.Misread? ==> t.events == told + es + open && Handed(open, t.header.filename).Some?)
    && (split.1.Closed? ==> open == [] && t.phase == PARSING_FINISHED
                            && t.contentLength + |split.1.end| == t.parsedLength + 4)
    && (split.1.Unfinished? || split.1.Refused? ==> t.phase != PARSING_FINISHED)
    && (split.1.Refused? ==> open == [] && t.phase == PARSE_ERROR)
  }

  lemma OutcomeJoined(told: seq<Event>, t: State, part: Part, next: (seq<Part>, Ending), es0: seq<Event>,
                      es: seq<Event>, open: seq<Event>)
    requires Told(part, es0) && Outcome(told + es0, t, next, es, open)
    ensures Outcome(told, t, ([part] + next.0, next.1), es0 + es, open)
  {
    var parts := [part] + next.0;
    assert parts[1..] == next.0;
    assert (es0 + es)[..|es0|] == es0 && (es0 + es)[|es0|..] == es;
    hide Told, AllTold;
    Associates(told, es0, es);
    assert AllTold(parts, es0 + es) by { AllToldFirst(part, next.0, es0, es); }
  }

  lemma AllToldFirst(part: Part, parts: seq<Part>, es0: seq<Event>, es: seq<Event>)
    requires Told(part, es0) && AllTold(parts, es)
    ensures AllTold([part] + parts, es0 + es)
  {
    assert ([part] + parts)[1..] == parts;
    assert (es0 + es)[..|es0|] == es0 && (es0 + es)[|es0|..] == es;
  }

  /** Nothing more to be told. */
  lemma OutcomeNow(t: State, ending: Ending)
    requires !t.broken && !ending.Misread?
    requires ending.Closed? ==> t.phase == PARSING_FINISHED && t.contentLength + |ending.end| == t.parsedLength + 4
    requires ending.Unfinished? ==> t.phase != PARSING_FINISHED
    requires ending.Refused? ==> t.phase == PARSE_ERROR
    ensures Outcome(t.events, t, ([], ending), [], [])
  {
    assert t.events + [] + [] == t.events;
  }

  // The header of a part.

  /** The empty line: for a file there must be memory. */
  lemma ItemStarts(s: State, form: Form, last: bool)
    requires s.phase == PARSE_HEADERS && s.parsedLength > 0 && !s.broken && s.temp == []
    ensures var t := Step(s, form, LF, last);
            && t.header == s.header && t.events == s.events && !t.broken && t.parsedLength == s.parsedLength + 1
            && if s.header.isFile && !form.memory(s.parsedLength) then t.phase == PARSE_ERROR
               else At(t, 0) && Inside(t, [], s.events)
  {
    var t := Step(s, form, LF, last);
    var none: bytes := [];
    assert none + none == none;
    assert t.events[|s.events|..] == [];
    assert Handed([], s.header.filename) == Some(none);
  }

  lemma HeaderStep(s: State, form: Form, data: byte, last: bool)
    requires s.phase == PARSE_HEADERS && s.parsedLength > 0 && !(data == LF && s.temp == [])
    ensures Step(s, form, data, last)
            == s.(parsedLength := s.parsedLength + 1,
                  temp := if data == CR then s.temp else if data == LF then [] else s.temp + [data],
                  header := if data == LF then form.parse(s.temp, s.header) else s.header)
  {
  }

  /** Header lines up to the empty one. */
  lemma {:induction false} HeaderRead(s: State, form: Form, text: bytes, lasts: seq<bool>, told: Header, rest: bytes)
    returns (t: State)
    requires |lasts| == |text| && s.phase == PARSE_HEADERS && s.parsedLength > 0 && !s.broken
    requires ReadHeader(text, s.temp, s.header, form.parse) == Some((told, rest))
    ensures var n := |text| - |rest| - 1;
            && 0 <= n < |text| && text[n..] == [LF] + rest
            && Run(s, form, text, lasts) == Run(t, form, text[n..], lasts[n..]) && t.parsedLength == s.parsedLength + n
    ensures t.phase == PARSE_HEADERS && t.temp == [] && t.header == told && !t.broken && t.events == s.events
    decreases |text|
  {
    hide Run, Step;
    if text[0] == LF && s.temp == [] {
      t := s;
    } else {
      var u := RunOne(s, form, text, lasts);
      HeaderStep(s, form, text[0], lasts[0]);
      t := HeaderRead(u, form, text[1..], lasts[1..], told, rest);
      DropAgain(text, lasts, |text| - 2 - |rest|);
    }
  }

  lemma {:induction false} HeaderUnread(s: State, form: Form, text: bytes, lasts: seq<bool>)
    requires |lasts| == |text| && s.phase == PARSE_HEADERS && s.parsedLength > 0
    requires ReadHeader(text, s.temp, s.header, form.parse) == None
    ensures var t := Run(s, form, text, lasts);
            t.phase == PARSE_HEADERS && t.events == s.events && t.broken == s.broken
    decreases |text|
  {
    if text == [] {
    } else {
      var u := RunOne(s, form, text, lasts);
      HeaderUnread(u, form, text[1..], lasts[1..]);
    }
  }

  // Content without a delimiter.

  lemma NotDone(raw: bytes, more: bytes, d: bytes)
    requires d != [] && FirstFrom(raw + more, d, 0) == None
    ensures !Matched(raw, d, |d|)
  {
    if Matched(raw, d, |d|) {
      EndsWhereItOccurs(raw, more, d);
    }
  }

  lemma {:induction false} ContentUnread(s: State, form: Form, more: bytes, lasts: seq<bool>, text: bytes,
                                         before: bytes,
                                         raw: bytes, m: nat, written: bytes, told: seq<Event>)
    returns (so: bytes)
    requires Good(form) && |lasts| == |more| && text == raw + more
    requires Reading(s, form.boundary, before, raw, m, written, told)
    requires FirstFrom(text, Delimiter(form.boundary), 0) == None
    ensures var t := Run(s, form, more, lasts);
            t.header == s.header && t.phase != PARSING_FINISHED && Inside(t, so, told)
    decreases |more|
  {
    hide Step, FirstFrom, Matched, Inside;
    if more == [] {
      so := written;
    } else {
      var u := RunOne(s, form, more, lasts);
      var next := raw + [more[0]];
      assert next + more[1..] == text;
      NotDoneYet(s, form.boundary, more, text, before, raw, m, written, told);
      var k, w := ByteRead(s, form, more[0], lasts[0], before, raw, m, written, told);
      so := ContentUnread(u, form, more[1..], lasts[1..], text, before, next, k, w, told);
    }
  }

  lemma {:induction false} NotDoneYet(s: State, boundary: bytes, more: bytes, text: bytes, before: bytes,
                                      raw: bytes, m: nat, written: bytes, told: seq<Event>)
    requires GoodBoundary(boundary) && more != [] && text == raw + more
    requires Reading(s, boundary, before, raw, m, written, told)
    requires FirstFrom(text, Delimiter(boundary), 0) == None
    ensures m < |Delimiter(boundary)| && MatchedNext(Delimiter(boundary), m, more[0]) < |Delimiter(boundary)|
  {
    DelimiterHasOneCr(boundary);
    MatchGoesOn(raw, Delimiter(boundary), m, more[0]);
    assert raw + [more[0]] + more[1..] == text;
    NotDone(raw + [more[0]], more[1..], Delimiter(boundary));
  }

  /** What an unfinished item leaves. */
  lemma OutcomeInside(t: State, written: bytes, told: seq<Event>) returns (open: seq<Event>)
    requires Inside(t, written, told) && t.phase != PARSING_FINISHED
    ensures Outcome(told, t, ([], Unfinished), [], open)
  {
    open := t.events[|told|..];
    assert told + [] == told && told + open == t.events;
    if !t.header.isFile { assert open == []; }
  }

  // Behind a delimiter.

  /** Behind the delimiter of an item: a field may go on, a file has no buffer. */
  ghost predicate Over(t: State, part: Part, told: seq<Event>) {
    && Behind(t, part.header, told)
    && (if part.header.isFile then t.itemBuffer.None? else Inside(t, part.content, told))
  }

  lemma ItemIsOver(u: State, t: State, part: Part, told: seq<Event>, es: seq<Event>)
    requires Inside(u, part.content, told) && u.header == part.header && Behind(t, part.header, told + es)
    requires t == Finished(u.(phase := DASH3_OR_RETURN2)).(parsedLength := u.parsedLength + 1)
    ensures Over(t, part, told + es)
  {
    if !part.header.isFile {
      FieldGoesOn(u, part.content, told);
    }
  }

  lemma LineFeedRead(s: State, form: Form, text: bytes, lasts: seq<bool>) returns (t: State)
    requires |lasts| == |text| && |text| >= 2 && text[0] == CR && text[1] == LF
    requires s.phase == DASH3_OR_RETURN2 && s.parsedLength > 0
    ensures Run(s, form, text, lasts) == Run(t, form, text[2..], lasts[2..])
    ensures t == s.(phase := PARSE_HEADERS, header := s.header.(isFile := false), parsedLength := s.parsedLength + 2)
  {
    var u := RunOne(s, form, text, lasts);
    t := RunOne(u, form, text[1..], lasts[1..]);
    DropAgain(text, lasts, 1);
  }

  lemma DashRead(s: State, form: Form, text: bytes, lasts: seq<bool>)
    requires |lasts| == |text| && text != [] && text[0] == DASH
    requires s.phase == DASH3_OR_RETURN2 && s.parsedLength > 0
    ensures Run(s, form, text, lasts)
            == s.(phase := PARSING_FINISHED, contentLength := s.parsedLength + 4,
                  parsedLength := s.parsedLength + |text|)
  {
    var u := RunOne(s, form, text, lasts);
    RunKeeps(u, form, text[1..], lasts[1..]);
  }

  /** Neither a dash nor CR and LF stand behind the delimiter. */
  predicate GoesOnOddly(after: bytes) {
    && after != [] && after != [CR] && after[0] != DASH
    && !(after[0] == CR && after[1] == LF)
  }

  /** Two bytes at most tell that the delimiter was content. */
  function OddLength(after: bytes): nat {
    if after != [] && after[0] == CR then 2 else 1
  }

  lemma OddStep(t: State, form: Form, after: bytes, lasts: seq<bool>) returns (v: State)
    requires |lasts| == |after| && GoesOnOddly(after)
    requires t.phase == DASH3_OR_RETURN2 && t.parsedLength > 0
    ensures var n := OddLength(after);
            && n <= |after| && Run(t, form, after, lasts) == Run(v, form, after[n..], lasts[n..])
            && v == PushedBack(t.(parsedLength := t.parsedLength + n - 1), Delimiter(form.boundary) + after[..n - 1],
                               after[n - 1], lasts[n - 1]).(parsedLength := t.parsedLength + n)
  {
    hide WriteAll, Waiting;
    var d := Delimiter(form.boundary);
    v := RunOne(t, form, after, lasts);
    if after[0] == CR {
      var u := v;
      v := RunOne(u, form, after[1..], lasts[1..]);
      assert after[..1] == [CR];
      DropAgain(after, lasts, 1);
      assert u.(phase := WAIT_FOR_RETURN1) == t.(parsedLength := t.parsedLength + 1).(phase := WAIT_FOR_RETURN1);
    } else {
      assert d + after[..0] == d;
    }
  }

  /** A byte written without a buffer breaks the request. */
  lemma OddBreaks(t: State, bs: bytes, data: byte, last: bool)
    requires t.header.isFile && t.itemBuffer.None? && bs != []
    ensures var v := PushedBack(t, bs, data, last); v.broken && t.events <= v.events
  {
    var w := t.(phase := WAIT_FOR_RETURN1);
    var u := WriteByte(w, bs[0], last);
    WrittenKeeps(u, bs[1..], last);
  }

  /** Behind a file anything else is misread. */
  lemma FileMisread(t: State, form: Form, after: bytes, lasts: seq<bool>, part: Part, told: seq<Event>)
    requires |lasts| == |after| && GoesOnOddly(after) && Over(t, part, told) && part.header.isFile
    ensures Outcome(told, Run(t, form, after, lasts), ([], Misread), [], [])
  {
    hide Run, PushedBack;
    var v := OddStep(t, form, after, lasts);
    var n := OddLength(after);
    OddBreaks(t.(parsedLength := t.parsedLength + n - 1), Delimiter(form.boundary) + after[..n - 1], after[n - 1],
              lasts[n - 1]);
    RunKeeps(v, form, after[n..], lasts[n..]);
    assert told + [] == told;
  }

  /** Behind a field it is content, and so is the delimiter. */
  lemma FieldResumes(t: State, form: Form, after: bytes, lasts: seq<bool>, part: Part, told: seq<Event>)
    returns (v: State, m: nat, written: bytes)
    requires Good(form) && |lasts| == |after| && GoesOnOddly(after) && Over(t, part, told) && !part.header.isFile
    ensures var n := OddLength(after);
            && n <= |after| && Run(t, form, after, lasts) == Run(v, form, after[n..], lasts[n..])
            && v.header == part.header
            && Reading(v, form.boundary, part.content + Delimiter(form.boundary), after[..n], m, written, told)
  {
    hide Run, PushedBack, Inside;
    var d, n := Delimiter(form.boundary), OddLength(after);
    v := OddStep(t, form, after, lasts);
    var w := t.(parsedLength := t.parsedLength + n - 1);
    Unmoved(t, w, part.content, told);
    PushedBackIsWritten(w, d + after[..n - 1], after[n - 1], lasts[n - 1], part.content, told);
    var data := after[n - 1];
    m := if data == CR then 1 else 0;
    written := part.content + (d + after[..n - 1]) + if data == CR then [] else [data];
    OddMatched(form.boundary, after);
    ResumedText(part.content, d, after, n);
  }

  lemma NothingMatched(d: bytes)
    ensures Matched([], d, 0)
  {
  }

  lemma OddMatched(boundary: bytes, after: bytes)
    requires GoodBoundary(boundary) && GoesOnOddly(after)
    ensures var n := OddLength(after); n <= |after| && Matched(after[..n], Delimiter(boundary),
                                                               if after[n - 1] == CR then 1 else 0)
  {
    hide Matched;
    var d := Delimiter(boundary);
    DelimiterHasOneCr(boundary);
    NothingMatched(d);
    MatchGoesOn([], d, 0, after[0]);
    assert [] + [after[0]] == after[..1];
    if after[0] == CR {
      MatchGoesOn(after[..1], d, 1, after[1]);
      assert after[..1] + [after[1]] == after[..2];
    }
  }

  lemma ResumedText(content: bytes, d: bytes, after: bytes, n: nat)
    requires 1 <= n <= |after| && |d| >= 1 && d[0] == CR
    ensures var data := after[n - 1];
            content + d + after[..n]
            == content + (d + after[..n - 1]) + (if data == CR then [] else [data]) + d[..if data == CR then 1 else 0]
  {
    assert after[..n] == after[..n - 1] + [after[n - 1]];
    assert d[..1] == [CR] && d[..0] == [];
  }

  // All parts.

  lemma {:induction false} RunLength(s: State, form: Form, data: bytes, lasts: seq<bool>)
    requires |lasts| == |data|
    ensures Run(s, form, data, lasts).parsedLength == s.parsedLength + |data|
  {
    hide Run;
    RunKeeps(s, form, data, lasts);
  }

  /** The same end, the same bytes to go. */
  lemma {:induction false} SameEnd(s: State, t: State, form: Form, a: bytes, la: seq<bool>, b: bytes, lb: seq<bool>)
    requires |la| == |a| && |lb| == |b| && Run(s, form, a, la).parsedLength == Run(t, form, b, lb).parsedLength
    ensures s.parsedLength + |a| == t.parsedLength + |b|
  {
    hide Run;
    RunLength(s, form, a, la);
    RunLength(t, form, b, lb);
  }

  /** From a first header line to the end. */
  lemma {:induction false} PartsRead(s: State, form: Form, text: bytes, lasts: seq<bool>, header: Header, total: nat)
    returns (es: seq<Event>, open: seq<Event>)
    requires Good(form) && |lasts| == |text| && s.parsedLength + |text| == total
    requires s.phase == PARSE_HEADERS && s.temp == [] && s.parsedLength > 0 && !s.broken
             && s.header == header.(isFile := false)
    ensures Outcome(s.events, Run(s, form, text, lasts), Split(text, form, header, total), es, open)
    decreases |text|, 0
  {
    hide Run, Outcome, Inside, Step;
    es, open := [], [];
    var read := ReadHeader(text, [], s.header, form.parse);
    if read == None {
      HeaderUnread(s, form, text, lasts);
      OutcomeNow(Run(s, form, text, lasts), Unfinished);
    } else {
      var told, rest := read.value.0, read.value.1;
      var t := HeaderRead(s, form, text, lasts, told, rest);
      var n := |text| - |rest| - 1;
      var u := RunOne(t, form, text[n..], lasts[n..]);
      ItemStarts(t, form, lasts[n]);
      assert text[n..][1..] == rest;
      if told.isFile && !form.memory(total - |rest| - 1) {
        ErrorStays(u, form, rest, lasts[n..][1..]);
        OutcomeNow(Run(s, form, text, lasts), Refused);
      } else {
        ReadingStarts(u, form.boundary, [], s.events);
        assert [] + rest == rest;
        es, open := ContentRead(u, form, rest, lasts[n..][1..], rest, [], [], 0, [], s.events, total);
      }
    }
  }

  /** From inside an item, whose delimiter is not near, to the end. */
  lemma {:induction false} ContentRead(s: State, form: Form, more: bytes, lasts: seq<bool>, text: bytes, before: bytes,
                                       raw: bytes, m: nat, written: bytes, told: seq<Event>, total: nat)
    returns (es: seq<Event>, open: seq<Event>)
    requires Good(form) && |lasts| == |more| && text == raw + more && |raw| <= 2
    requires s.parsedLength + |more| == total && |text| <= total
    requires Reading(s, form.boundary, before, raw, m, written, told)
    ensures Outcome(told, Run(s, form, more, lasts), SplitContent(text, before, form, s.header, total), es, open)
    decreases |text|, 0
  {
    hide Run, Outcome, Inside, Reading, Behind, Over, OccursAt, Finished, Told;
    var d := Delimiter(form.boundary);
    var first := FirstFrom(text, d, 0);
    if first == None {
      var so := ContentUnread(s, form, more, lasts, text, before, raw, m, written, told);
      open := OutcomeInside(Run(s, form, more, lasts), so, told);
      es := [];
    } else {
      var i := first.value;
      DelimiterFits(text, d, i);
      var part := Part(s.header, before + text[..i]);
      var n := i + |d| - |raw|;
      var t, u, es0 := ItemRead(s, form, more, lasts, text, before, raw, m, written, told, part, n);
      ItemIsOver(u, t, part, told, es0);
      assert more[n..] == text[i + |d|..];
      SameEnd(s, t, form, more, lasts, more[n..], lasts[n..]);
      es, open := NextRead(t, form, more[n..], lasts[n..], part, told + es0, total);
      OutcomeJoined(told, Run(s, form, more, lasts), part, Next(more[n..], part, form, total), es0, es, open);
      es := es0 + es;
    }
  }

  lemma DelimiterFits(text: bytes, d: bytes, i: nat)
    requires FirstFrom(text, d, 0) == Some(i)
    ensures i + |d| <= |text|
  {
  }

  /** From behind a delimiter to the end. */
  lemma {:induction false} NextRead(t: State, form: Form, after: bytes, lasts: seq<bool>, part: Part, told: seq<Event>,
                                    total: nat)
    returns (es: seq<Event>, open: seq<Event>)
    requires Good(form) && |lasts| == |after| && Over(t, part, told) && t.parsedLength + |after| == total
    ensures Outcome(told, Run(t, form, after, lasts), Next(after, part, form, total), es, open)
    decreases |after|, 2
  {
    OverSays(t, part, told);
    NextIs(after, part, form, total);
    hide Run, Outcome, Inside, Over, OccursAt, Split, SplitContent, Reading, Good, Next, Delimiter, Behind, GoesOnOddly;
    es, open := [], [];
    if after == [] || after == [CR] {
      BreaksOff(t, form, after, lasts);
      OutcomeNow(Run(t, form, after, lasts), Unfinished);
    } else if after[0] == DASH {
      DashRead(t, form, after, lasts);
      OutcomeNow(Run(t, form, after, lasts), Closed(after));
    } else if after[0] == CR && after[1] == LF {
      var u := LineFeedRead(t, form, after, lasts);
      es, open := PartsRead(u, form, after[2..], lasts[2..], part.header, total);
    } else if part.header.isFile {
      FileMisread(t, form, after, lasts, part, told);
    } else {
      es, open := FieldRead(t, form, after, lasts, part, told, total);
    }
  }

  /** From behind the delimiter of a field that goes on. */
  lemma {:induction false} FieldRead(t: State, form: Form, after: bytes, lasts: seq<bool>, part: Part,
                                     told: seq<Event>, total: nat)
    returns (es: seq<Event>, open: seq<Event>)
    requires Good(form) && |lasts| == |after| && Over(t, part, told) && GoesOnOddly(after) && !part.header.isFile
    requires t.parsedLength + |after| == total
    ensures Outcome(told, Run(t, form, after, lasts),
                    SplitContent(after, part.content + Delimiter(form.boundary), form, part.header, total), es, open)
    decreases |after|, 1
  {
    var n := OddLength(after);
    hide Run, Outcome, Inside, Over, OccursAt, Split, SplitContent, Reading, Good, Delimiter, GoesOnOddly;
    var v, m, written := FieldResumes(t, form, after, lasts, part, told);
    assert after[..n] + after[n..] == after;
    SameEnd(t, v, form, after, lasts, after[n..], lasts[n..]);
    es, open := ContentRead(v, form, after[n..], lasts[n..], after, part.content + Delimiter(form.boundary),
                            after[..n], m, written, told,
                            total);
  }

  lemma OverSays(t: State, part: Part, told: seq<Event>)
    requires Over(t, part, told)
    ensures t.phase == DASH3_OR_RETURN2 && t.header == part.header && !t.broken && t.parsedLength > 0 && t.temp == []
            && t.events == told
  {
  }

  lemma NextIs(after: bytes, part: Part, form: Form, total: nat)
    requires |after| <= total
    ensures Next(after, part, form, total)
            == if after == [] || after == [CR] then ([], Unfinished)
               else if !GoesOnOddly(after) then
                 if after[0] == DASH then ([], Closed(after)) else Split(after[2..], form, part.header, total)
               else if part.header.isFile then ([], Misread)
               else SplitContent(after, part.content + Delimiter(form.boundary), form, part.header, total)
    ensures GoesOnOddly(after) <==> after != [] && after != [CR] && after[0] != DASH
                                    && !(after[0] == CR && after[1] == LF)
  {
  }

  lemma BreaksOff(t: State, form: Form, after: bytes, lasts: seq<bool>)
    requires |lasts| == |after| && (after == [] || after == [CR]) && t.phase == DASH3_OR_RETURN2 && t.parsedLength > 0
    ensures var u := Run(t, form, after, lasts);
            u.events == t.events && u.broken == t.broken && u.phase != PARSING_FINISHED
  {
    if after == [CR] {
      var u := RunOne(t, form, after, lasts);
    }
  }

  // The line that opens the body.

  function OpeningLine(boundary: bytes): bytes {
    [DASH, DASH] + boundary + [CR, LF]
  }

  /** The parts of a body; there are none behind another first line. */
  function SplitBody(body: bytes, form: Form): (seq<Part>, Ending) {
    var opening := OpeningLine(form.boundary);
    if opening <= body then Split(body[|opening|..], form, Header([], [], [], false), |body|) else ([], Unfinished)
  }

  /** One byte of that line. */
  lemma OpeningStep(s: State, form: Form, data: byte, last: bool, n: nat)
    requires Good(form) && s.parsedLength == n <= |form.boundary| + 3 && (n > 0 ==> s.phase == EXPECT_BOUNDARY)
    ensures |OpeningLine(form.boundary)| == |form.boundary| + 4
    ensures var t := Begun(s);
            Step(s, form, data, last)
            == if data != OpeningLine(form.boundary)[n] then t.(phase := PARSE_ERROR, parsedLength := n + 1)
               else if n == |form.boundary| + 3
               then t.(phase := PARSE_HEADERS, header := t.header.(isFile := false), parsedLength := n + 1)
               else t.(parsedLength := n + 1)
  {
    assert 2 <= n < |form.boundary| + 2 ==> OpeningLine(form.boundary)[n] == form.boundary[n - 2];
  }

  lemma {:induction false} OpeningRead(s: State, form: Form, body: bytes, lasts: seq<bool>, n: nat)
    requires Good(form) && |lasts| == |body| && s.parsedLength == n <= |form.boundary| + 3
    requires n > 0 ==> s.phase == EXPECT_BOUNDARY
    requires |OpeningLine(form.boundary)| == |form.boundary| + 4 && OpeningLine(form.boundary)[n..] <= body
    ensures var t, k := Begun(s), |form.boundary| + 4 - n;
            Run(s, form, body, lasts)
            == Run(t.(phase := PARSE_HEADERS, header := t.header.(isFile := false),
                      parsedLength := |form.boundary| + 4),
                   form, body[k..], lasts[k..])
    decreases |body|
  {
    hide Step, Run;
    var opening := OpeningLine(form.boundary);
    assert body[0] == opening[n..][0] == opening[n];
    assert opening[n + 1..] == opening[n..][1..] <= body[1..];
    var u := RunOne(s, form, body, lasts);
    OpeningStep(s, form, body[0], lasts[0], n);
    if n == |form.boundary| + 3 {
    } else {
      OpeningRead(u, form, body[1..], lasts[1..], n + 1);
      DropAgain(body, lasts, |form.boundary| + 3 - n);
    }
  }

  lemma {:induction false} ErrorStays(s: State, form: Form, text: bytes, lasts: seq<bool>)
    requires |lasts| == |text| && s.phase == PARSE_ERROR && s.parsedLength > 0
    ensures Run(s, form, text, lasts) == s.(parsedLength := s.parsedLength + |text|)
    decreases |text|
  {
    if text == [] {
    } else {
      var u := RunOne(s, form, text, lasts);
      ErrorStays(u, form, text[1..], lasts[1..]);
    }
  }

  /** Another line, or the beginning of this one: nothing is told. */
  lemma {:induction false} OpeningUnread(s: State, form: Form, body: bytes, lasts: seq<bool>, n: nat)
    requires Good(form) && |lasts| == |body| && s.parsedLength == n <= |form.boundary| + 3 && s.phase == EXPECT_BOUNDARY
    requires |OpeningLine(form.boundary)| == |form.boundary| + 4 && !(OpeningLine(form.boundary)[n..] <= body)
    ensures var t := Run(s, form, body, lasts);
            t.events == s.events && t.broken == s.broken && t.phase != PARSING_FINISHED
    decreases |body|
  {
    hide Step;
    var opening := OpeningLine(form.boundary);
    if body == [] {
    } else {
      var u := RunOne(s, form, body, lasts);
      OpeningStep(s, form, body[0], lasts[0], n);
      if body[0] == opening[n] {
        assert opening[n..] == [opening[n]] + opening[n + 1..];
        assert body == [body[0]] + body[1..];
        OpeningUnread(u, form, body[1..], lasts[1..], n + 1);
      } else {
        ErrorStays(u, form, body[1..], lasts[1..]);
      }
    }
  }

  /** A body without regard to packets. */
  lemma BodyRead(form: Form, contentLength: nat, body: bytes, lasts: seq<bool>)
    returns (es: seq<Event>, open: seq<Event>)
    requires Good(form) && |lasts| == |body| && contentLength > 0
    ensures Outcome([], Run(Opened(contentLength), form, body, lasts), SplitBody(body, form), es, open)
  {
    hide Run, Outcome, Split;
    var s := Opened(contentLength);
    var opening := OpeningLine(form.boundary);
    assert opening[0..] == opening;
    if opening <= body {
      var n := |opening|;
      OpeningRead(s, form, body, lasts, 0);
      var t := Begun(s).(phase := PARSE_HEADERS, parsedLength := n);
      es, open := PartsRead(t, form, body[n..], lasts[n..], Header([], [], [], false), |body|);
    } else {
      OpeningUnread(s, form, body, lasts, 0);
      OutcomeNow(Run(s, form, body, lasts), Unfinished);
      es, open := [], [];
    }
  }

  // Packets.

  function Packets(s: State, form: Form, packets: seq<bytes>): State
    decreases |packets|
  {
    if packets == [] then s else Packets(Packet(s, form, packets[0]), form, packets[1..])
  }

  function Joined(packets: seq<bytes>): bytes {
    if packets == [] then [] else packets[0] + Joined(packets[1..])
  }

  /** Some packet ends behind this many bytes. */
  predicate EndsAt(packets: seq<bytes>, n: int) {
    packets != [] && (|packets[0]| == n || EndsAt(packets[1..], n - |packets[0]|))
  }

  /** Bytes come behind a packet that ends there. */
  predicate EarlyEnd(packets: seq<bytes>, n: int) {
    packets != [] && ((|packets[0]| == n && Joined(packets[1..]) != []) || EarlyEnd(packets[1..], n - |packets[0]|))
  }

  lemma {:induction false} NotEarly(packets: seq<bytes>, n: int)
    requires n >= |Joined(packets)|
    ensures !EarlyEnd(packets, n)
    decreases |packets|
  {
    if packets == [] {
    } else {
      NotEarly(packets[1..], n - |packets[0]|);
    }
  }

  lemma {:induction false} EndsSomewhere(packets: seq<bytes>, n: int)
    ensures EndsAt(packets, n) <==> exists i | 1 <= i <= |packets| :: |Joined(packets[..i])| == n
    decreases |packets|
  {
    if packets == [] {
    } else {
      var rest := packets[1..];
      EndsSomewhere(rest, n - |packets[0]|);
      forall i | 1 <= i <= |packets| ensures |Joined(packets[..i])| == |packets[0]| + |Joined(rest[..i - 1])| {
        assert packets[..i][1..] == rest[..i - 1];
      }
      if |packets[0]| == n {
        assert |Joined(packets[..1])| == |packets[0]| + |Joined(rest[..0])|;
      } else if EndsAt(rest, n - |packets[0]|) {
        var j :| 1 <= j <= |rest| && |Joined(rest[..j])| == n - |packets[0]|;
        assert |Joined(packets[..j + 1])| == n;
      }
      forall i | 1 <= i <= |packets| && |Joined(packets[..i])| == n ensures EndsAt(packets, n) {
        if i > 1 {
          assert |Joined(rest[..i - 1])| == n - |packets[0]|;
        } else {
          assert rest[..0] == [];
        }
      }
    }
  }

  lemma {:induction false} ContentRuns(s: State, form: Form, data: bytes) returns (lasts: seq<bool>)
    ensures |lasts| == |data| && Run(s, form, data, lasts) == Content(s, form, data)
    decreases |data|
  {
    if data == [] {
      lasts := [];
    } else {
      var rest := ContentRuns(Step(s, form, data[0], |data| == 1), form, data[1..]);
      lasts := [|data| == 1] + rest;
    }
  }

  lemma {:induction false} RunsJoin(s: State, form: Form, a: bytes, la: seq<bool>, b: bytes, lb: seq<bool>)
    requires |la| == |a| && |lb| == |b|
    ensures Run(s, form, a + b, la + lb) == Run(Run(s, form, a, la), form, b, lb)
    decreases |a|
  {
    hide Step;
    if a == [] {
      assert a + b == b && la + lb == lb;
    } else {
      assert (a + b)[1..] == a[1..] + b && (la + lb)[1..] == la[1..] + lb;
      RunsJoin(Step(s, form, a[0], la[0]), form, a[1..], la[1..], b, lb);
    }
  }

  lemma {:induction false} EndedStays(s: State, form: Form, packets: seq<bytes>)
    requires s.parseState == PARSE_REQ_END
    ensures Packets(s, form, packets) == s
    decreases |packets|
  {
    if packets == [] {
    } else {
      EndedStays(s, form, packets[1..]);
    }
  }

  lemma NothingRun(s: State, form: Form)
    ensures Run(s, form, [], []) == s
  {
  }

  /** The request in the state it is handled in. */
  function Ended(v: State): State {
    v.(parseState := PARSE_REQ_END, parsedLength := v.contentLength, events := v.events + [Handled])
  }

  /** How packets matter: by the marks on their last bytes, and by one ending where
      the request is complete. */
  lemma {:induction false} PacketsRun(s: State, form: Form, packets: seq<bytes>) returns (lasts: seq<bool>)
    requires s.parseState == PARSE_REQ_BODY
    requires s.phase != PARSING_FINISHED ==> !EarlyEnd(packets, s.contentLength - s.parsedLength)
    requires s.parsedLength == 0 ==> s.phase != PARSING_FINISHED
    ensures |lasts| == |Joined(packets)|
    ensures var v := Run(s, form, Joined(packets), lasts);
            Packets(s, form, packets) == if EndsAt(packets, v.contentLength - s.parsedLength) then Ended(v) else v
    decreases |packets|
  {
    hide Run, Content;
    if packets == [] {
      lasts := [];
      NothingRun(s, form);
    } else {
      var data, rest := packets[0], packets[1..];
      var la := ContentRuns(s, form, data);
      var u := Content(s, form, data);
      RunKeeps(s, form, data, la);
      if data == [] {
        NothingRun(s, form);
      }
      if u.parsedLength == u.contentLength {
        lasts := la + seq(|Joined(rest)|, _ => false);
        EndedStays(Checked(u), form, rest);
        RunKeeps(u, form, Joined(rest), lasts[|data|..]);
        if Joined(rest) == [] {
          NothingRun(u, form);
        }
        assert lasts == la + lasts[|data|..];
      } else {
        var lb := PacketsRun(u, form, rest);
        RunKeeps(u, form, Joined(rest), lb);
        lasts := la + lb;
        assert lasts[|data|..] == lb;
      }
      RunsJoin(s, form, data, la, Joined(rest), lasts[|data|..]);
    }
  }

  /** How many bytes of a body complete its request. */
  function CompleteAt(body: bytes, contentLength: nat, ending: Ending): int {
    if ending.Closed? then |body| - |ending.end| + 4 else contentLength
  }

  /** However a body is cut into packets, the request is told of exactly the parts
      that splitting at the first delimiters gives, in order; it breaks exactly
      when something else stands behind the delimiter of a file; and it is handled
      once, behind the parts, exactly when a packet ends where it is complete. */
  lemma BodyIsSplit(form: Form, contentLength: nat, packets: seq<bytes>) returns (es: seq<Event>, open: seq<Event>)
    requires Good(form) && 0 < contentLength && !EarlyEnd(packets, contentLength)
    ensures var body := Joined(packets);
            var t := Packets(Opened(contentLength), form, packets);
            var split := SplitBody(body, form);
            var complete := EndsAt(packets, CompleteAt(body, contentLength, split.1));
            && AllTold(split.0, es)
            && (t.broken <==> split.1.Misread?)
            && (split.1.Misread? ==> es <= t.events)
            && (!split.1.Misread? ==>
                  && t.events == es + open + (if complete then [Handled] else [])
                  && Handed(open, t.header.filename).Some?
                  && (t.parseState == PARSE_REQ_END <==> complete))
            && (split.1.Closed? ==> open == [] && t.phase == PARSING_FINISHED)
            && (split.1.Refused? ==> open == [] && t.phase == PARSE_ERROR)
  {
    hide Run, Packets, Split, AllTold, Handed, EndsAt, SplitBody;
    var s := Opened(contentLength);
    var body := Joined(packets);
    var lasts := PacketsRun(s, form, packets);
    var v := Run(s, form, body, lasts);
    es, open := BodyRead(form, contentLength, body, lasts);
    RunKeeps(s, form, body, lasts);
    assert [] + es == es && es + open + [] == es + open;
  }

  /** A body that closes is complete with four bytes from the dash on, so with
      fewer its request is never handled, and with just four it always is. */
  lemma ClosedIsHandled(packets: seq<bytes>, contentLength: nat, end: bytes)
    requires |end| <= |Joined(packets)| && Joined(packets) != []
    ensures |end| == 4 ==> EndsAt(packets, CompleteAt(Joined(packets), contentLength, Closed(end)))
    ensures |end| < 4 ==> !EndsAt(packets, CompleteAt(Joined(packets), contentLength, Closed(end)))
  {
    LastPacketEnds(packets);
    if |end| < 4 {
      EndIsInside(packets, |Joined(packets)| - |end| + 4);
    }
  }

  /** Packets behind the one that completes the request change nothing. */
  lemma {:induction false} RestIsIgnored(s: State, form: Form, packets: seq<bytes>, more: seq<bytes>)
    requires Packets(s, form, packets).parseState == PARSE_REQ_END
    ensures Packets(s, form, packets + more) == Packets(s, form, packets)
    decreases |packets|
  {
    hide Packet;
    if packets == [] {
      assert packets + more == more;
      EndedStays(s, form, more);
    } else {
      assert (packets + more)[1..] == packets[1..] + more;
      RestIsIgnored(Packet(s, form, packets[0]), form, packets[1..], more);
    }
  }

  /** And one that does not close when its announced length is there. */
  lemma AnnouncedIsHandled(packets: seq<bytes>, contentLength: nat)
    requires 0 < contentLength && |Joined(packets)| <= contentLength
    ensures EndsAt(packets, CompleteAt(Joined(packets), contentLength, Unfinished))
            <==> |Joined(packets)| == contentLength
  {
    if |Joined(packets)| == contentLength {
      LastPacketEnds(packets);
    } else {
      EndIsInside(packets, contentLength);
    }
  }

  lemma {:induction false} LastPacketEnds(packets: seq<bytes>)
    requires packets != []
    ensures EndsAt(packets, |Joined(packets)|)
    decreases |packets|
  {
    if |packets| == 1 {
      assert packets[1..] == [] && Joined(packets) == packets[0] + [];
    } else {
      LastPacketEnds(packets[1..]);
    }
  }

  lemma {:induction false} EndIsInside(packets: seq<bytes>, n: int)
    ensures EndsAt(packets, n) ==> 0 <= n <= |Joined(packets)|
    decreases |packets|
  {
    if packets == [] {
    } else {
      EndIsInside(packets[1..], n - |packets[0]|);
    }
  }

  /** A field whose delimiter is followed by other text is told once up to there,
      and again with all up to the next one. */
  lemma FieldToldTwice(content: bytes, more: bytes, rest: bytes, form: Form, told: Header, total: nat)
    requires !told.isFile
    requires var d := Delimiter(form.boundary);
             && FirstFrom(content + d + (more + d + rest), d, 0) == Some(|content|)
             && FirstFrom(more + d + rest, d, 0) == Some(|more|) && GoesOnOddly(more + d + rest)
             && |content + d + (more + d + rest)| <= total
    ensures var d := Delimiter(form.boundary);
            var parts := SplitContent(content + d + (more + d + rest), [], form, told, total).0;
            [Part(told, content), Part(told, content + d + more)] <= parts
  {
    hide FirstFrom, Delimiter, SplitContent, Next, GoesOnOddly;
    var d := Delimiter(form.boundary);
    var after := more + d + rest;
    OnePart([], content, after, form, told, total);
    assert [] + content == content;
    NextIs(after, Part(told, content), form, total);
    OnePart(content + d, more, rest, form, told, total);
  }

  lemma OnePart(before: bytes, content: bytes, after: bytes, form: Form, told: Header, total: nat)
    requires FirstFrom(content + Delimiter(form.boundary) + after, Delimiter(form.boundary), 0) == Some(|content|)
    requires |content + Delimiter(form.boundary) + after| <= total
    ensures var part := Part(told, before + content);
            var next := Next(after, part, form, total);
            SplitContent(content + Delimiter(form.boundary) + after, before, form, told, total) == ([part] + next.0,
                next.1)
  {
    hide FirstFrom, Delimiter, Next;
    var text := content + Delimiter(form.boundary) + after;
    assert text[..|content|] == content && text[|content| + |Delimiter(form.boundary)|..] == after;
  }

  // What the chunks of a file amount to.

  function DataOf(chunks: seq<Event>): bytes {
    if chunks == [] then []
    else
      var last := chunks[|chunks| - 1];
      DataOf(chunks[..|chunks| - 1]) + if last.Chunk? then last.data else []
  }

  /** Chunk k fits the buffer and starts where those before it end. */
  ghost predicate Consecutive(chunks: seq<Event>, k: nat, filename: bytes, final: bool) {
    && k < |chunks| && chunks[k].Chunk? && |chunks[k].data| <= UPLOAD_BUFFER
    && chunks[k].offset == |DataOf(chunks[..k])|
    && chunks[k].filename == filename && chunks[k].final == final
  }

  lemma {:induction false} HandedSays(chunks: seq<Event>, filename: bytes)
    requires Handed(chunks, filename).Some?
    ensures DataOf(chunks) == Handed(chunks, filename).value
    ensures forall k | 0 <= k < |chunks| :: Consecutive(chunks, k, filename, false)
    decreases |chunks|
  {
    if chunks == [] {
    } else {
      var n := |chunks| - 1;
      HandedSays(chunks[..n], filename);
      forall k | 0 <= k < n ensures Consecutive(chunks, k, filename, false) {
        assert Consecutive(chunks[..n], k, filename, false) && chunks[..n][..k] == chunks[..k];
      }
    }
  }

  /** Of a file with something in it: chunks that follow one another from offset
      zero, fit the buffer, make up the file, and end with the one final chunk;
      then the file itself. */
  lemma UploadIsWhole(part: Part, es: seq<Event>) returns (chunks: seq<Event>)
    requires Told(part, es) && part.header.isFile && part.content != []
    ensures es == chunks + [File(part.header.name, part.header.filename, |part.content|)]
    ensures DataOf(chunks) == part.content && chunks != []
    ensures forall k :: 0 <= k < |chunks| - 1 ==> Consecutive(chunks, k, part.header.filename, false)
    ensures Consecutive(chunks, |chunks| - 1, part.header.filename, true)
  {
    var n := |es| - 2;
    var before := es[..n];
    chunks := es[..n + 1];
    HandedSays(before, part.header.filename);
    assert chunks[..n] == before;
    assert part.content[..es[n].offset] + es[n].data == part.content;
    forall k | 0 <= k < n ensures Consecutive(chunks, k, part.header.filename, false) {
      assert Consecutive(before, k, part.header.filename, false);
      assert before[..k] == chunks[..k];
    }
  }
}

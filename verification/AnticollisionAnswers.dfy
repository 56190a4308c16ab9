/** What PICC_Select makes of each answer, for any radio: nothing is taken for an
    acknowledgement but three whole bytes with the right checksum. */
module AnticollisionAnswers {
  import opened Options
  import opened Anticollision
  import opened AnticollisionTheorems

  /** A SELECT says that seven whole bytes are valid. */
  predicate IsSelectFrame(f: Frame) {
    |f.data| == 9 && f.data[1] == 0x70
  }

  /** Three whole bytes, received alone. */
  predicate IsAcknowledgement(answer: Answer) {
    answer.Received? && !answer.collision && answer.lastBits == 0 && |answer.fifo| == 3
  }

  /** And the last two are the checksum of the first. */
  predicate IsRight(answer: Answer, crc: Crc, sent: seq<Frame>) {
    IsAcknowledgement(answer) && crc(sent, [answer.fifo[0]]) == Some((answer.fifo[1], answer.fifo[2]))
  }

  predicate IsWrong(answer: Answer, crc: Crc, sent: seq<Frame>) {
    && IsAcknowledgement(answer)
    && match crc(sent, [answer.fifo[0]])
       case None => false
       case Some(check) => check.0 != answer.fifo[1] || check.1 != answer.fifo[2]
  }

  /** How a level ends after its SELECT has been sent. */
  function Ending(radio: Radio, crc: Crc, sent: seq<Frame>, buf: seq<bv8>, uid: Uid, level: nat): Progress
    requires |buf| == 9 && |uid.uidByte| == 10 && 1 <= level <= 3
  {
    Acknowledged(crc, Selection(radio, crc, sent, buf), uid, level)
  }

  function EndCode(p: Progress): Code {
    if p.Finished? then p.selected.code else OK
  }

  /** Which code an answer to a SELECT gives, unless it leads to another level. */
  predicate Fits(code: Code, answer: Answer, crc: Crc, sent: seq<Frame>) {
    var short := answer.Received? && |answer.fifo| <= 3;
    && (code == OK <==> IsRight(answer, crc, sent))
    && (code == CRC_WRONG <==> IsWrong(answer, crc, sent))
    && (code == TIMEOUT <==>
          answer == Silence || (IsAcknowledgement(answer) && crc(sent, [answer.fifo[0]]) == None))
    && (code == ERROR <==>
          answer == Garbled || (short && !answer.collision && !IsAcknowledgement(answer)))
    && (code == NO_ROOM <==> answer.Received? && |answer.fifo| > 3)
    && (code == COLLISION <==> short && answer.collision && answer.noPosition)
    && (code == INTERNAL_ERROR <==> short && answer.collision && !answer.noPosition)
  }

  /** Which answer to a SELECT gives what, whatever was sent before. */
  lemma SelectAnswered(radio: Radio, crc: Crc, sent: seq<Frame>, buf: seq<bv8>, uid: Uid, level: nat)
    requires |buf| == 9 && |uid.uidByte| == 10 && 1 <= level <= 3
    requires crc(sent, SelectBuffer(buf)[..7]).Some?
    ensures var p := Ending(radio, crc, sent, buf, uid, level);
            var on := if p.Finished? then p.selected.sent else p.sent;
            && |on| == |sent| + 1 && on[..|sent|] == sent && IsSelectFrame(on[|sent|])
            && Fits(EndCode(p), radio(on), crc, on)
            && (p.Deeper? <==> IsRight(radio(on), crc, on) && radio(on).fifo[0] & 0x04 != 0)
            && (p.Finished? && p.selected.code == OK ==>
                  && p.selected.uid.sak == radio(on).fifo[0]
                  && p.selected.uid.size == 3 * level + 1)
  {
  }

  /** What a level leaves in the caller's UID: the bytes found, three behind a cascade
      tag, once the answer was read without a collision, whatever is wrong with it. */
  lemma UidIsLeft(radio: Radio, crc: Crc, sent: seq<Frame>, buf: seq<bv8>, uid: Uid, level: nat)
    requires |buf| == 9 && |uid.uidByte| == 10 && 1 <= level <= 3
    requires crc(sent, SelectBuffer(buf)[..7]).Some?
    ensures var p := Ending(radio, crc, sent, buf, uid, level);
            var on := if p.Finished? then p.selected.sent else p.sent;
            var left := if p.Finished? then p.selected.uid else p.uid;
            var answer, at := radio(on), 3 * (level - 1);
            var found := if buf[2] == 0x88 then buf[3..6] else buf[2..6];
            && (left.uidByte == if answer.Received? && |answer.fifo| <= 3 && !answer.collision then
                  uid.uidByte[..at] + found + uid.uidByte[at + |found|..] else uid.uidByte)
            && (p.Deeper? || p.selected.code != OK ==> left.size == uid.size && left.sak == uid.sak)
  {
    hide Selection, Acknowledged;
    SelectionFinds(radio, crc, sent, buf);
    FoundIsLeft(crc, Selection(radio, crc, sent, buf), uid, level);
  }

  lemma SelectionFinds(radio: Radio, crc: Crc, sent: seq<Frame>, buf: seq<bv8>)
    requires |buf| == 9 && crc(sent, SelectBuffer(buf)[..7]).Some?
    ensures var o := Selection(radio, crc, sent, buf);
            var answer := radio(o.sent);
            && (o.code == OK <==> answer.Received? && |answer.fifo| <= 3 && !answer.collision)
            && (o.code == OK ==> Found(o.buf) == if buf[2] == 0x88 then buf[3..6] else buf[2..6])
  {
    var b := SelectBuffer(buf);
    var check := crc(sent, b[..7]).value;
    var c := b[7 := check.0][8 := check.1];
    var answer := radio(sent + [Frame(c, 0, 0)]);
    if answer.Received? && |answer.fifo| <= 3 {
      var r := ReadFifo(c, 6, answer.fifo, answer.beyond, 0);
      assert r[2..6] == buf[2..6] && r[3..6] == buf[3..6] && r[2] == buf[2];
    }
  }

  lemma FoundIsLeft(crc: Crc, o: Outcome, uid: Uid, level: nat)
    requires |o.buf| == 9 && |uid.uidByte| == 10 && 1 <= level <= 3
    ensures var p := Acknowledged(crc, o, uid, level);
            var left := if p.Finished? then p.selected.uid else p.uid;
            var at, found := 3 * (level - 1), Found(o.buf);
            && (if p.Finished? then p.selected.sent == o.sent else p.sent == o.sent)
            && (left.uidByte == if o.code == OK then uid.uidByte[..at] + found + uid.uidByte[at + |found|..]
                                else uid.uidByte)
            && (p.Deeper? || p.selected.code != OK ==> left.size == uid.size && left.sak == uid.sak)
  {
  }

  /** The SELECT itself: the bytes found, their check byte, and the checksum. */
  lemma SelectSent(radio: Radio, crc: Crc, sent: seq<Frame>, buf: seq<bv8>)
    requires |buf| == 9 && crc(sent, SelectBuffer(buf)[..7]).Some?
    ensures var o := Selection(radio, crc, sent, buf);
            && |o.sent| == |sent| + 1 && o.sent[..|sent|] == sent
            && var f := o.sent[|sent|];
               && IsSelectFrame(f) && f.lastBits == 0 && f.rxAlign == 0
               && f.data[0] == buf[0] && f.data[2..6] == buf[2..6]
               && f.data[2] ^ f.data[3] ^ f.data[4] ^ f.data[5] ^ f.data[6] == 0
               && crc(sent, f.data[..7]) == Some((f.data[7], f.data[8]))
  {
    var b := SelectBuffer(buf);
    var check := crc(sent, b[..7]).value;
    var c := b[7 := check.0][8 := check.1];
    assert c[..7] == b[..7] && c[2..6] == buf[2..6];
    CheckByte(buf[2], buf[3], buf[4], buf[5]);
  }

  lemma CheckByte(a: bv8, b: bv8, c: bv8, d: bv8)
    ensures Bcc([a, b, c, d]) == a ^ b ^ c ^ d
    ensures a ^ b ^ c ^ d ^ (a ^ b ^ c ^ d) == 0
  {
  }

  /** Which answer to an anticollision frame gives what, and how many bits are
      known if it goes on. */
  lemma AskAnswered(radio: Radio, sent: seq<Frame>, buf: seq<bv8>, known: nat)
    requires |buf| == 9 && known < 32
    ensures var round := Ask(radio, sent, buf, known);
            var on := if round.Stopped? then round.outcome.sent else round.sent;
            var answer := radio(on);
            var fits := answer.Received? && |answer.fifo| <= 7 - known / 8;
            var found := if answer.Received? && answer.position != 0 then answer.position else 32;
            && |on| == |sent| + 1 && on[..|sent|] == sent && on[|sent|].data[0] == buf[0]
            && |on[|sent|].data| == 2 + (known + 7) / 8
            && on[|sent|].lastBits == known % 8 && on[|sent|].rxAlign == known % 8
            && (round.Going? <==> fits && (!answer.collision || (!answer.noPosition && found > known)))
            && (round.Going? ==> round.known == if answer.collision then found else 32)
            && (round.Stopped? ==>
                  && (round.outcome.code == TIMEOUT <==> answer == Silence)
                  && (round.outcome.code == ERROR <==> answer == Garbled)
                  && (round.outcome.code == NO_ROOM <==> answer.Received? && !fits)
                  && (round.outcome.code == COLLISION <==> fits && answer.collision && answer.noPosition)
                  && (round.outcome.code == INTERNAL_ERROR <==>
                        fits && answer.collision && !answer.noPosition && found <= known))
  {
    hide WithBit;
  }

  /** The bits of a byte are numbered from the lowest, and counted as they are. */
  lemma BitsAreNumbered(k: Bits3)
    ensures Mask(k) as int == [1, 2, 4, 8, 16, 32, 64, 128][k]
    ensures FromBit(k) as int == 256 - [1, 2, 4, 8, 16, 32, 64, 128][k]
    ensures Small(k) as int == k
  {
  }

  // A whole level.

  /** Before its SELECT a level sends no other; and only the SELECT ends it well. */
  lemma {:induction false} LevelRuns(radio: Radio, crc: Crc, sent: seq<Frame>, buf: seq<bv8>, known: nat)
    returns (run: seq<Frame>, last: seq<bv8>)
    requires |buf| == 9
    ensures |last| == 9 && last[0] == buf[0] && forall f <- run :: !IsSelectFrame(f)
    ensures var o := Level(radio, crc, sent, buf, known);
            || o == Selection(radio, crc, sent + run, last)
            || (o.code != OK && o.code != CRC_WRONG && run != [] && o.sent == sent + run)
    decreases if known < 32 then 32 - known else 0
  {
    hide Ask, Selection, KnownFrame, IsSelectFrame;
    run, last := [], buf;
    if known >= 32 {
      assert sent + [] == sent;
    } else {
      var f := KnownFrame(buf, known);
      run := [f];
      var round := Ask(radio, sent, buf, known);
      AskRuns(radio, sent, buf, known);
      if round.Going? {
        var more;
        more, last := LevelRuns(radio, crc, round.sent, round.buf, round.known);
        assert sent + [f] + more == sent + ([f] + more);
        run := [f] + more;
      }
    }
  }

  lemma AskRuns(radio: Radio, sent: seq<Frame>, buf: seq<bv8>, known: nat)
    requires |buf| == 9 && known < 32
    ensures !IsSelectFrame(KnownFrame(buf, known))
    ensures var round := Ask(radio, sent, buf, known);
            && (round.Going? ==> round.sent == sent + [KnownFrame(buf, known)] && round.buf[0] == buf[0])
            && (round.Stopped? ==>
                  && round.outcome.sent == sent + [KnownFrame(buf, known)]
                  && round.outcome.code != OK && round.outcome.code != CRC_WRONG)
  {
  }

  // A whole run.

  /** A SELECT that is not the last was answered rightly, by a card whose UID goes on. */
  ghost predicate WentOn(radio: Radio, crc: Crc, sent: seq<Frame>, i: nat)
    requires i < |sent|
  {
    IsSelectFrame(sent[i]) ==>
      && IsRight(radio(sent[..i + 1]), crc, sent[..i + 1])
      && radio(sent[..i + 1]).fifo[0] & 0x04 != 0
  }

  /** What the end of a run says about the last answer. */
  ghost predicate EndSays(radio: Radio, crc: Crc, before: nat, r: Selected) {
    && before <= |r.sent|
    && (forall i | before <= i < |r.sent| - 1 :: WentOn(radio, crc, r.sent, i))
    && (before == |r.sent| ==> r.code == TIMEOUT || r.code == INTERNAL_ERROR)
    && (r.code == OK || r.code == CRC_WRONG ==> before < |r.sent| && IsSelectFrame(r.sent[|r.sent| - 1]))
    && (before < |r.sent| && IsSelectFrame(r.sent[|r.sent| - 1]) ==>
          || (WentOn(radio, crc, r.sent, |r.sent| - 1) && (r.code == TIMEOUT || r.code == INTERNAL_ERROR))
          || IsTheEnd(radio, crc, r))
  }

  predicate IsTheEnd(radio: Radio, crc: Crc, r: Selected)
    requires r.sent != []
  {
    && Fits(r.code, radio(r.sent), crc, r.sent)
    && (r.code == OK ==>
          && radio(r.sent).fifo[0] & 0x04 == 0 && r.uid.sak == radio(r.sent).fifo[0]
          && SizeIsTold(r.sent[|r.sent| - 1], r.uid.size))
  }

  predicate SizeIsTold(f: Frame, size: nat) {
    |f.data| > 0 &&
    ((f.data[0] == 0x93 && size == 4) || (f.data[0] == 0x95 && size == 7) || (f.data[0] == 0x97 && size == 10))
  }

  /** One level of a run: it ends the run, or its SELECT was answered rightly. */
  lemma {:induction false} LevelSays(radio: Radio, crc: Crc, sent: seq<Frame>, uid: Uid, buf: seq<bv8>,
                                     known: nat, level: nat)
    requires |buf| == 9 && |uid.uidByte| == 10 && 1 <= level <= 3 && buf[0] == Sel(level)
    ensures match Acknowledged(crc, Level(radio, crc, sent, buf, known), uid, level)
            case Finished(r) => |sent| <= |r.sent| && r.sent[..|sent|] == sent && EndSays(radio, crc, |sent|, r)
            case Deeper(on, _, _) =>
              && |sent| <= |on| && on[..|sent|] == sent
              && forall i | |sent| <= i < |on| :: WentOn(radio, crc, on, i)
  {
    hide Fits, IsRight, IsWrong, SelectBuffer, Level, Acknowledged, Selection;
    var run, last := LevelRuns(radio, crc, sent, buf, known);
    var o := Level(radio, crc, sent, buf, known);
    var before := sent + run;
    if o == Selection(radio, crc, before, last) && crc(before, SelectBuffer(last)[..7]).Some? {
      SelectAnswered(radio, crc, before, last, uid, level);
      SelectSent(radio, crc, before, last);
      var p := Acknowledged(crc, o, uid, level);
      if p.Deeper? {
        assert p.sent[..|p.sent|] == p.sent;
        forall i | |sent| <= i < |p.sent| ensures WentOn(radio, crc, p.sent, i) {
          if i < |before| { assert p.sent[i] == before[i] == run[i - |sent|]; }
        }
      }
    } else {
      if o == Selection(radio, crc, before, last) { NotAnswered(radio, crc, before, last); }
      StopsThere(crc, o, uid, level);
    }
  }

  lemma NotAnswered(radio: Radio, crc: Crc, sent: seq<Frame>, buf: seq<bv8>)
    requires |buf| == 9 && crc(sent, SelectBuffer(buf)[..7]) == None
    ensures Selection(radio, crc, sent, buf).code == TIMEOUT && Selection(radio, crc, sent, buf).sent == sent
  {
  }

  lemma StopsThere(crc: Crc, o: Outcome, uid: Uid, level: nat)
    requires |o.buf| == 9 && |uid.uidByte| == 10 && 1 <= level <= 3 && o.code != OK
    ensures Acknowledged(crc, o, uid, level) == Finished(Selected(o.code, uid, o.sent))
  {
  }

  /** What a run did before its last level stays. */
  lemma Extends(radio: Radio, crc: Crc, before: nat, on: seq<Frame>, r: Selected)
    requires before <= |on| <= |r.sent| && r.sent[..|on|] == on
    requires forall i | before <= i < |on| :: WentOn(radio, crc, on, i)
    requires EndSays(radio, crc, |on|, r) || (r.sent == on && r.code == INTERNAL_ERROR)
    ensures EndSays(radio, crc, before, r)
  {
    forall i | before <= i < |on| ensures WentOn(radio, crc, r.sent, i) {
      assert WentOn(radio, crc, on, i);
      assert r.sent[..i + 1] == on[..i + 1];
    }
  }

  lemma {:induction false} RunSays(radio: Radio, crc: Crc, sent: seq<Frame>, uid: Uid, validBits: nat, buf: seq<bv8>,
                                   level: nat)
    requires |buf| == 9 && |uid.uidByte| == 10 && validBits <= 80 && 1 <= level <= 4
    ensures var r := SelectFrom(radio, crc, sent, uid, validBits, buf, level);
            && |sent| <= |r.sent| && r.sent[..|sent|] == sent
            && if level < 4 then EndSays(radio, crc, |sent|, r) else r.sent == sent && r.code == INTERNAL_ERROR
    decreases 4 - level
  {
    hide Level, Acknowledged, EndSays, WentOn, IsSelectFrame;
    if level < 4 {
      var b, known := Prepared(uid, validBits, buf, level), Known(uid, validBits, level);
      LevelSays(radio, crc, sent, uid, b, known, level);
      var p := Acknowledged(crc, Level(radio, crc, sent, b, known), uid, level);
      if p.Deeper? {
        RunSays(radio, crc, p.sent, p.uid, validBits, p.buf, level + 1);
        Extends(radio, crc, |sent|, p.sent, SelectFrom(radio, crc, p.sent, p.uid, validBits, p.buf, level + 1));
      }
    }
  }

  /** PICC_Select reports a card only behind an acknowledgement of three whole
      bytes with the right checksum, whose SAK it tells and whose bit for an
      incomplete UID is clear. A wrong checksum is always told as such, and any
      other SELECT of the run was rightly answered by a card with more to tell. */
  lemma AnswersDecide(radio: Radio, crc: Crc, uid: Uid, validBits: nat, buf: seq<bv8>)
    requires |buf| == 9 && |uid.uidByte| == 10
    ensures var r := PiccSelect(radio, crc, [], uid, validBits, buf);
            && (r.code == OK ==>
                  var n := |r.sent|;
                  && n > 0 && IsSelectFrame(r.sent[n - 1]) && SizeIsTold(r.sent[n - 1], r.uid.size)
                  && var a := radio(r.sent);
                     && a.Received? && !a.collision && a.lastBits == 0 && |a.fifo| == 3
                     && crc(r.sent, a.fifo[..1]) == Some((a.fifo[1], a.fifo[2]))
                     && a.fifo[0] & 0x04 == 0 && r.uid.sak == a.fifo[0])
            && (validBits > 80 ==> r == Selected(INVALID, uid, []))
            && (r.code == CRC_WRONG ==> r.sent != [] && IsWrong(radio(r.sent), crc, r.sent))
            && (forall i | 0 <= i < |r.sent| - 1 && IsSelectFrame(r.sent[i]) ::
                  IsRight(radio(r.sent[..i + 1]), crc, r.sent[..i + 1])
                  && radio(r.sent[..i + 1]).fifo[0] & 0x04 != 0)
            && (r.sent != [] && IsSelectFrame(r.sent[|r.sent| - 1]) ==>
                  || Fits(r.code, radio(r.sent), crc, r.sent)
                  || (WentOn(radio, crc, r.sent, |r.sent| - 1) && (r.code == TIMEOUT || r.code == INTERNAL_ERROR)))
  {
    hide SelectFrom, IsSelectFrame, SizeIsTold;
    if validBits <= 80 {
      RunSays(radio, crc, [], uid, validBits, buf, 1);
      var r := PiccSelect(radio, crc, [], uid, validBits, buf);
      forall i | 0 <= i < |r.sent| - 1 && IsSelectFrame(r.sent[i])
        ensures IsRight(radio(r.sent[..i + 1]), crc, r.sent[..i + 1])
        ensures radio(r.sent[..i + 1]).fifo[0] & 0x04 != 0
      {
        assert WentOn(radio, crc, r.sent, i);
      }
      if r.code == OK {
        assert IsTheEnd(radio, crc, r);
        assert radio(r.sent).fifo[..1] == [radio(r.sent).fifo[0]];
      }
    }
  }
}

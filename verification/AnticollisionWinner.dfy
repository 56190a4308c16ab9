/** Over a noiseless field PICC_Select selects the card that wins every level. */
module AnticollisionWinner {
  import opened Options
  import opened Anticollision
  import opened AnticollisionField

  // Bits in the buffer.

  lemma BitOfMerge(low: bv8, high: bv8, mask: bv8, bit: bv8)
    requires bit & (bit - 1) == 0
    ensures ((low & !mask) | (high & mask)) & bit == if mask & bit == 0 then low & bit else high & bit
  {
  }

  lemma MergedBit(low: bv8, high: bv8, k: Bits3, j: Bits3)
    ensures TestBit(Merge(low, high, k), j) == if j < k then TestBit(low, j) else TestBit(high, j)
  {
    hide FromBit, Mask;
    MaskSays(k, j);
    BitOfMerge(low, high, FromBit(k), Mask(j));
  }

  lemma MaskSays(k: Bits3, j: Bits3)
    ensures FromBit(k) & Mask(j) == 0 <==> j < k
    ensures Mask(j) & (Mask(j) - 1) == 0
  {
  }

  lemma SettledBit(b: bv8, k: Bits3, j: Bits3)
    ensures TestBit(b | Mask(k), j) == (j == k || TestBit(b, j))
  {
  }

  lemma ByteFromBits(a: bv8, b: bv8)
    requires forall j: Bits3 :: TestBit(a, j) == TestBit(b, j)
    ensures a == b
  {
    assert TestBit(a, 0) == TestBit(b, 0) && TestBit(a, 1) == TestBit(b, 1);
    assert TestBit(a, 2) == TestBit(b, 2) && TestBit(a, 3) == TestBit(b, 3);
    assert TestBit(a, 4) == TestBit(b, 4) && TestBit(a, 5) == TestBit(b, 5);
    assert TestBit(a, 6) == TestBit(b, 6) && TestBit(a, 7) == TestBit(b, 7);
  }

  lemma SameBytes(a: seq<bv8>, b: seq<bv8>)
    requires |a| == 4 && |b| == 4 && SameBits(a, b, 32)
    ensures a == b
  {
    forall i | 0 <= i < 4 ensures a[i] == b[i] {
      forall j: Bits3 ensures TestBit(a[i], j) == TestBit(b[i], j) {
        assert Bit(a, 8 * i + j) == Bit(b, 8 * i + j);
      }
      ByteFromBits(a[i], b[i]);
    }
  }

  lemma NvbReads(whole: Bits3, extra: Bits3)
    ensures Nvb(whole, extra) >> 4 == Small(whole)
    ensures Nvb(whole, extra) & 0x0F == Small(extra)
  {
  }

  /** The frame is understood, and carries the bits that are known. */
  lemma FrameSays(buf: seq<bv8>, known: nat, level: nat)
    requires |buf| == 9 && known < 32 && 1 <= level <= 3 && buf[0] == Sel(level)
    ensures var f := KnownFrame(buf, known);
            IsAnticollision(f, level) && KnownBits(f) == known
            && forall i | 0 <= i < known :: Bit(f.data[2..], i) == Bit(buf[2..6], i)
  {
    NvbReads(2 + known / 8, known % 8);
    var f := KnownFrame(buf, known);
    forall i | 0 <= i < known ensures Bit(f.data[2..], i) == Bit(buf[2..6], i) {
      assert f.data[2..][i / 8] == buf[2 + i / 8];
    }
  }

  /** Bits known before stay, and the received ones take their places. */
  lemma ReadBit(buf: seq<bv8>, known: nat, fifo: seq<bv8>, beyond: bv8, i: nat)
    requires |buf| == 9 && known < 32 && i < 32
    requires i < known || i - 8 * (known / 8) < 8 * |fifo|
    ensures var r := ReadFifo(NvbBuffer(buf, known), 2 + known / 8, fifo, beyond, known % 8);
            r[0] == buf[0]
            && Bit(r[2..6], i) == if i < known then Bit(buf[2..6], i) else Bit(fifo, i - 8 * (known / 8))
  {
    var r := ReadFifo(NvbBuffer(buf, known), 2 + known / 8, fifo, beyond, known % 8);
    assert r[2..6][i / 8] == r[2 + i / 8] && buf[2..6][i / 8] == buf[2 + i / 8];
    if fifo != [] && i / 8 == known / 8 {
      MergedBit(buf[2 + i / 8], fifo[0], known % 8, i % 8);
    }
  }

  /** The byte that gets the bit, and the others. */
  lemma ByteSet(buf: seq<bv8>, known: nat, j: nat)
    requires |buf| == 9 && 1 <= known <= 32 && j < 4
    ensures var r, b := WithBit(buf, known), known - 1;
            && r[0] == buf[0]
            && r[2..6][j] == if j == b / 8 then buf[2..6][j] | Mask(b % 8) else buf[2..6][j]
  {
    hide Mask;
  }

  lemma BitSet(buf: seq<bv8>, known: nat, i: nat)
    requires |buf| == 9 && 1 <= known <= 32 && i < 32
    ensures var r := WithBit(buf, known);
            r[0] == buf[0] && Bit(r[2..6], i) == (i == known - 1 || Bit(buf[2..6], i))
  {
    hide WithBit, Mask, TestBit;
    ByteSet(buf, known, i / 8);
    if i / 8 == (known - 1) / 8 {
      SettledBit(buf[2..6][i / 8], (known - 1) % 8, i % 8);
    }
  }

  /** Where two strings first differ, the one above has the 1. */
  lemma AboveHasTheOne(a: seq<bv8>, b: seq<bv8>, p: nat)
    requires |a| == 4 && |b| == 4 && p < 32 && Above(a, b) && SameBits(a, b, p) && Bit(b, p)
    ensures Bit(a, p)
  {
    var k :| 0 <= k < 32 && Bit(a, k) && !Bit(b, k) && SameBits(a, b, k);
  }

  // One level.

  /** The chip's checksum is the one the cards compute. */
  ghost predicate Exact(crc: Crc, check: Check) {
    forall sent: seq<Frame>, data: seq<bv8> :: crc(sent, data) == Some(check(data))
  }

  lemma Heard(radio: Radio, cards: set<Card>, check: Check, sent: seq<Frame>, f: Frame)
    requires Noiseless(radio, cards, check)
    ensures Answers(After(cards, sent, check), f, check, radio(sent + [f]))
    ensures After(cards, sent + [f], check) == Step(After(cards, sent, check), f, check)
  {
    assert (sent + [f])[..|sent + [f]| - 1] == sent;
  }

  /** All cards are at the level, w is above or equal to each of them that has the
      known bits, and those that equal it there acknowledge alike. */
  ghost predicate Leads(w: Card, field: Field, known: nat) {
    && w in field.ready && 1 <= field.level <= 3 && known <= 32
    && (forall c <- field.ready :: field.level <= Levels(c))
    && (forall c <- field.ready | SameBits(LevelBytes(w, field.level), LevelBytes(c, field.level), known) ::
          Has(c, field.level, LevelBytes(w, field.level))
          || Above(LevelBytes(w, field.level), LevelBytes(c, field.level)))
    && (forall c <- Picked(field, LevelBytes(w, field.level)) :: LevelSak(c, field.level) == LevelSak(w, field.level))
  }

  /** The buffer starts the level's frames and knows some bits of w. */
  ghost predicate Knows(buf: seq<bv8>, w: Card, level: nat, known: nat) {
    && |buf| == 9 && known <= 32 && 1 <= level <= Levels(w)
    && buf[0] == Sel(level) && SameBits(buf[2..6], LevelBytes(w, level), known)
  }

  function Hearing(field: Field, f: Frame): set<Card>
    requires IsAnticollision(f, field.level)
  {
    set c <- field.ready | Hears(c, field.level, f)
  }

  lemma WinnerHears(w: Card, field: Field, buf: seq<bv8>, known: nat)
    requires Leads(w, field, known) && known < 32 && Knows(buf, w, field.level, known)
    ensures var f := KnownFrame(buf, known);
            IsAnticollision(f, field.level) && KnownBits(f) == known
            && w in Hearing(field, f)
            && forall c <- Hearing(field, f) :: SameBits(LevelBytes(w, field.level), LevelBytes(c, field.level), known)
  {
    FrameSays(buf, known, field.level);
  }

  /** What is received extends what is known. */
  lemma ReadingKnows(w: Card, level: nat, buf: seq<bv8>, known: nat, answer: Answer, upTo: nat)
    requires known < 32 && Knows(buf, w, level, known) && known <= upTo <= 32
    requires answer.Received? && Carries(answer, LevelBytes(w, level), known, upTo)
    ensures Knows(ReadFifo(NvbBuffer(buf, known), 2 + known / 8, answer.fifo, answer.beyond, known % 8), w, level, upTo)
  {
    var r := ReadFifo(NvbBuffer(buf, known), 2 + known / 8, answer.fifo, answer.beyond, known % 8);
    var t := LevelBytes(w, level);
    forall i | 0 <= i < upTo ensures Bit(r[2..6], i) == Bit(t, i) {
      ReadBit(buf, known, answer.fifo, answer.beyond, i);
      assert Bit(buf[2..6], i) == Bit(t, i) || known <= i;
    }
    assert r[0] == buf[0];
  }

  /** The colliding bit is set: the winner has a 1 there. */
  lemma SettingKnows(w: Card, level: nat, buf: seq<bv8>, known: nat)
    requires 1 <= known <= 32 && Knows(buf, w, level, known - 1) && Bit(LevelBytes(w, level), known - 1)
    ensures Knows(WithBit(buf, known), w, level, known)
  {
    hide WithBit, Bit, LevelBytes;
    var r := WithBit(buf, known);
    BitSet(buf, known, 0);
    forall i | 0 <= i < known ensures Bit(r[2..6], i) == Bit(LevelBytes(w, level), i) {
      BitSet(buf, known, i);
      assert i < known - 1 ==> Bit(buf[2..6], i) == Bit(LevelBytes(w, level), i);
    }
    BitSet(buf, known, 0);
  }

  lemma CarriedAlike(answer: Answer, a: seq<bv8>, b: seq<bv8>, known: nat, upTo: nat)
    requires answer.Received? && |a| == 4 && |b| == 4 && known <= upTo <= 32
    requires SameBits(a, b, known) && Carries(answer, a, known, upTo) && Carries(answer, b, known, upTo)
    ensures SameBits(a, b, upTo)
  {
    forall i | 0 <= i < upTo ensures Bit(a, i) == Bit(b, i) {
      if i >= known {
        assert Bit(answer.fifo, i - 8 * (known / 8)) == Bit(a, i);
      }
    }
  }

  /** Of two cards that differ there, one has the 1: then so has the winner. */
  lemma WinnerHasTheOne(w: Card, e: Card, field: Field, known: nat, answer: Answer)
    requires Leads(w, field, known) && e in field.ready
    requires answer.Received? && Position(answer) > known
    requires SameBits(LevelBytes(w, field.level), LevelBytes(e, field.level), known)
    requires Carries(answer, LevelBytes(w, field.level), known, Position(answer) - 1)
    requires Carries(answer, LevelBytes(e, field.level), known, Position(answer) - 1)
    requires Bit(LevelBytes(e, field.level), Position(answer) - 1)
    ensures Bit(LevelBytes(w, field.level), Position(answer) - 1)
  {
    var a, b, p := LevelBytes(w, field.level), LevelBytes(e, field.level), Position(answer) - 1;
    CarriedAlike(answer, a, b, known, p);
    if a != b {
      AboveHasTheOne(a, b, p);
    }
  }

  /** A collision report from which the reader can go on to these bytes. */
  predicate LeadsTo(answer: Answer, bytes: seq<bv8>, known: nat)
    requires |bytes| == 4
  {
    && answer.Received? && answer.collision && !answer.noPosition && |answer.fifo| <= 7 - known / 8
    && Position(answer) > known
    && Carries(answer, bytes, known, Position(answer) - 1)
    && Bit(bytes, Position(answer) - 1)
  }

  /** All that answer agree: the level is known. */
  lemma AgreementLearned(radio: Radio, sent: seq<Frame>, buf: seq<bv8>, known: nat, w: Card, level: nat)
    requires known < 32 && Knows(buf, w, level, known)
    requires var answer := radio(sent + [KnownFrame(buf, known)]);
             answer.Received? && !answer.collision && |answer.fifo| == 5 - known / 8
             && Carries(answer, LevelBytes(w, level), known, 32)
    ensures var r := Ask(radio, sent, buf, known);
            r.Going? && r.sent == sent + [KnownFrame(buf, known)] && Knows(r.buf, w, level, r.known)
  {
    ReadingKnows(w, level, buf, known, radio(sent + [KnownFrame(buf, known)]), 32);
  }

  lemma CollidedLearned(answer: Answer, sent: seq<Frame>, e: Exchange, known: nat, w: Card, level: nat)
    requires 1 <= level <= Levels(w) && LeadsTo(answer, LevelBytes(w, level), known)
    requires Knows(e.buf, w, level, Position(answer) - 1)
    ensures var r := Collided(answer, sent, e, known);
            r.Going? && r.sent == sent && Knows(r.buf, w, level, r.known)
  {
    hide Knows, WithBit, LevelBytes, Carries;
    SettingKnows(w, level, e.buf, Position(answer));
  }

  /** Two that answer differ: one bit more is known than they have in common. */
  lemma ClashLearned(radio: Radio, sent: seq<Frame>, buf: seq<bv8>, known: nat, w: Card, level: nat)
    requires known < 32 && Knows(buf, w, level, known)
    requires LeadsTo(radio(sent + [KnownFrame(buf, known)]), LevelBytes(w, level), known)
    ensures var r := Ask(radio, sent, buf, known);
            r.Going? && r.sent == sent + [KnownFrame(buf, known)] && Knows(r.buf, w, level, r.known)
  {
    var answer := radio(sent + [KnownFrame(buf, known)]);
    ReadingKnows(w, level, buf, known, answer, Position(answer) - 1);
    var read := ReadFifo(NvbBuffer(buf, known), 2 + known / 8, answer.fifo, answer.beyond, known % 8);
    var e := Exchange(COLLISION, read, |answer.fifo|, answer.lastBits);
    assert e == Exchanged(answer, NvbBuffer(buf, known), 2 + known / 8, 7 - known / 8, known % 8, known % 8);
    CollidedLearned(answer, sent + [KnownFrame(buf, known)], e, known, w, level);
  }

  lemma WinnerClashes(w: Card, heard: set<Card>, field: Field, known: nat, answer: Answer)
    requires Leads(w, field, known) && heard <= field.ready && w in heard && known < 32
    requires forall c <- heard :: SameBits(LevelBytes(w, field.level), LevelBytes(c, field.level), known)
    requires Clash(heard, field.level, known, answer)
    ensures LeadsTo(answer, LevelBytes(w, field.level), known)
  {
    var p := Position(answer) - 1;
    var c, d :| c in heard && d in heard && Bit(LevelBytes(c, field.level), p) && !Bit(LevelBytes(d, field.level), p);
    WinnerHasTheOne(w, c, field, known, answer);
  }

  /** An anticollision frame moves no card. */
  lemma AskHeard(radio: Radio, cards: set<Card>, check: Check, sent: seq<Frame>, buf: seq<bv8>, known: nat, w: Card,
                 field: Field)
    requires Noiseless(radio, cards, check) && After(cards, sent, check) == field
    requires Leads(w, field, known) && known < 32 && Knows(buf, w, field.level, known)
    ensures var f := KnownFrame(buf, known);
            After(cards, sent + [f], check) == field
            && IsAnticollision(f, field.level) && KnownBits(f) == known
            && AnswersBits(Hearing(field, f), field.level, known, radio(sent + [f]))
  {
    var f := KnownFrame(buf, known);
    Heard(radio, cards, check, sent, f);
    WinnerHears(w, field, buf, known);
  }

  /** One anticollision frame tells more of the winner and moves no card. */
  lemma AskLearns(radio: Radio, cards: set<Card>, check: Check, sent: seq<Frame>, buf: seq<bv8>, known: nat, w: Card,
                  field: Field)
    requires Noiseless(radio, cards, check) && After(cards, sent, check) == field
    requires Leads(w, field, known) && known < 32 && Knows(buf, w, field.level, known)
    ensures var r := Ask(radio, sent, buf, known);
            r.Going? && After(cards, r.sent, check) == field && Knows(r.buf, w, field.level, r.known)
  {
    var f := KnownFrame(buf, known);
    AskHeard(radio, cards, check, sent, buf, known, w, field);
    WinnerHears(w, field, buf, known);
    var heard := Hearing(field, f);
    if forall c <- heard, d <- heard :: LevelBytes(c, field.level) == LevelBytes(d, field.level) {
      AgreementLearned(radio, sent, buf, known, w, field.level);
    } else {
      WinnerClashes(w, heard, field, known, radio(sent + [f]));
      ClashLearned(radio, sent, buf, known, w, field.level);
    }
  }

  /** A level that ends with the acknowledgement of w. */
  ghost predicate Chooses(o: Outcome, w: Card, level: nat, check: Check)
    requires 1 <= level <= Levels(w)
  {
    && o.code == OK && |o.buf| == 9 && o.length == 3 && o.lastBits == 0
    && o.buf[2..6] == LevelBytes(w, level) && o.buf[6] == LevelSak(w, level)
    && (o.buf[7], o.buf[8]) == check([o.buf[6]])
  }

  /** The SELECT frame as the cards read it. */
  lemma SelectFrameSays(buf: seq<bv8>, w: Card, level: nat, check: Check) returns (f: Frame)
    requires Knows(buf, w, level, 32)
    ensures var b := SelectBuffer(buf);
            f == Frame(b[7 := check(b[..7]).0][8 := check(b[..7]).1], 0, 0)
    ensures IsSelect(f, level, check) && f.data[2..6] == LevelBytes(w, level)
  {
    SameBytes(buf[2..6], LevelBytes(w, level));
    var b := SelectBuffer(buf);
    assert b[2..6] == buf[2..6];
    var c := b[7 := check(b[..7]).0][8 := check(b[..7]).1];
    assert c[..7] == b[..7] && c[2..6] == b[2..6];
    f := Frame(c, 0, 0);
  }

  lemma AcknowledgementRead(f: Frame, fifo: seq<bv8>, beyond: bv8)
    requires |f.data| == 9 && |fifo| == 3
    ensures var r := ReadFifo(f.data, 6, fifo, beyond, 0);
            r[2..6] == f.data[2..6] && r[6..9] == fifo && r[6] == fifo[0] && r[7] == fifo[1] && r[8] == fifo[2]
  {
  }

  lemma SelectionChooses(radio: Radio, crc: Crc, cards: set<Card>, check: Check, sent: seq<Frame>, buf: seq<bv8>,
                         w: Card, field: Field)
    requires Noiseless(radio, cards, check) && Exact(crc, check) && After(cards, sent, check) == field
    requires Leads(w, field, 32) && Knows(buf, w, field.level, 32)
    ensures var o := Selection(radio, crc, sent, buf);
            Chooses(o, w, field.level, check)
            && After(cards, o.sent, check) == Moved(field, LevelBytes(w, field.level))
  {
    hide LevelBytes, LevelSak, Bit, SameBits;
    var f := SelectFrameSays(buf, w, field.level, check);
    Heard(radio, cards, check, sent, f);
    var picked := Picked(field, LevelBytes(w, field.level));
    assert w in picked;
    var answer := radio(sent + [f]);
    assert AnswersSelect(picked, field.level, check, answer);
    assert answer.fifo == [LevelSak(w, field.level), check([LevelSak(w, field.level)]).0,
                           check([LevelSak(w, field.level)]).1];
    AcknowledgementRead(f, answer.fifo, answer.beyond);
  }

  lemma LeadsOn(w: Card, field: Field, known: nat, more: nat)
    requires Leads(w, field, known) && known <= more <= 32
    ensures Leads(w, field, more)
  {
  }

  lemma {:induction false} LevelChooses(radio: Radio, crc: Crc, cards: set<Card>, check: Check, sent: seq<Frame>,
                                        buf: seq<bv8>,
                                        known: nat, w: Card, field: Field)
    requires Noiseless(radio, cards, check) && Exact(crc, check) && After(cards, sent, check) == field
    requires Leads(w, field, known) && Knows(buf, w, field.level, known)
    ensures var o := Level(radio, crc, sent, buf, known);
            Chooses(o, w, field.level, check)
            && After(cards, o.sent, check) == Moved(field, LevelBytes(w, field.level))
    decreases 32 - known
  {
    if known == 32 {
      SelectionChooses(radio, crc, cards, check, sent, buf, w, field);
    } else {
      AskLearns(radio, cards, check, sent, buf, known, w, field);
      var r := Ask(radio, sent, buf, known);
      LeadsOn(w, field, known, r.known);
      LevelChooses(radio, crc, cards, check, r.sent, r.buf, r.known, w, field);
    }
  }

  // From level to level.

  /** The field when w has come through the levels below: nobody selected yet,
      and only the cards that share those levels with w still listen. */
  function Narrowed(cards: set<Card>, w: Card, level: nat): Field
    requires level <= Levels(w)
  {
    Field((set c <- cards | SharesBelow(c, w, level)), level, {})
  }

  lemma SharersGoOn(c: Card, w: Card, level: nat)
    requires 1 <= level <= Levels(w) && SharesBelow(c, w, level)
    ensures level <= Levels(c)
  {
    if level > 1 {
      assert Has(c, level - 1, LevelBytes(w, level - 1));
    }
  }

  /** Only one card has all the level bytes of w. */
  lemma SharersEnd(c: Card, w: Card)
    requires SharesBelow(c, w, Levels(w)) && Has(c, Levels(w), LevelBytes(w, Levels(w)))
    ensures c.uid == w.uid
  {
    var n := Levels(w);
    assert forall k | 1 <= k <= n :: Has(c, k, LevelBytes(w, k));
    assert Has(c, 1, LevelBytes(w, 1));
    assert Levels(c) == n;
    if n >= 2 {
      assert Has(c, 2, LevelBytes(w, 2));
      assert c.uid[0..3] == LevelBytes(c, 1)[1..] && w.uid[0..3] == LevelBytes(w, 1)[1..];
    }
    if n == 2 {
      assert c.uid == c.uid[0..3] + LevelBytes(c, 2) && w.uid == w.uid[0..3] + LevelBytes(w, 2);
    } else if n == 3 {
      assert Has(c, 3, LevelBytes(w, 3));
      assert c.uid[3..6] == LevelBytes(c, 2)[1..] && w.uid[3..6] == LevelBytes(w, 2)[1..];
      assert c.uid == c.uid[0..3] + c.uid[3..6] + LevelBytes(c, 3)
          && w.uid == w.uid[0..3] + w.uid[3..6] + LevelBytes(w, 3);
    }
  }

  lemma SameLevelSameFate(c: Card, w: Card, level: nat)
    requires 1 <= level <= Levels(w) && SharesBelow(c, w, level) && Has(c, level, LevelBytes(w, level))
    ensures level == Levels(c) <==> level == Levels(w)
  {
  }

  lemma WinnerLeads(cards: set<Card>, w: Card, bits: nat, level: nat)
    requires w in cards && Wins(w, cards, bits) && DistinctUids(cards) && 1 <= level <= Levels(w)
    ensures Leads(w, Narrowed(cards, w, level), KnownAt(w, bits, level))
  {
    var field := Narrowed(cards, w, level);
    forall c | c in field.ready ensures level <= Levels(c) {
      SharersGoOn(c, w, level);
    }
    forall c | c in Picked(field, LevelBytes(w, level)) ensures LevelSak(c, level) == LevelSak(w, level) {
      SameLevelSameFate(c, w, level);
      if level == Levels(w) {
        SharersEnd(c, w);
      }
    }
  }

  lemma FieldNarrows(cards: set<Card>, w: Card, level: nat)
    requires w in cards && 1 <= level < Levels(w)
    ensures Moved(Narrowed(cards, w, level), LevelBytes(w, level)) == Narrowed(cards, w, level + 1)
  {
    var field := Narrowed(cards, w, level);
    var moved := Moved(field, LevelBytes(w, level));
    forall c | c in cards
      ensures c in moved.ready <==> SharesBelow(c, w, level + 1)
      ensures c !in moved.active
    {
      OneNarrows(c, w, level);
      hide SharesBelow, Has, LevelBytes, LevelSak;
    }
  }

  lemma OneNarrows(c: Card, w: Card, level: nat)
    requires 1 <= level < Levels(w)
    ensures SharesBelow(c, w, level + 1) <==> SharesBelow(c, w, level) && Has(c, level, LevelBytes(w, level))
    ensures SharesBelow(c, w, level) && Has(c, level, LevelBytes(w, level)) ==> level < Levels(c)
  {
    if SharesBelow(c, w, level) && Has(c, level, LevelBytes(w, level)) {
      SameLevelSameFate(c, w, level);
    }
    if SharesBelow(c, w, level + 1) {
      assert Has(c, level, LevelBytes(w, level));
    }
  }

  lemma WinnerAlone(cards: set<Card>, w: Card)
    requires w in cards && DistinctUids(cards)
    ensures Moved(Narrowed(cards, w, Levels(w)), LevelBytes(w, Levels(w))) == Field({}, Levels(w) + 1, {w})
  {
    var level := Levels(w);
    var field := Narrowed(cards, w, level);
    var picked := Picked(field, LevelBytes(w, level));
    forall c | c in picked ensures c == w {
      SharersEnd(c, w);
    }
    assert w in picked;
    assert picked == {w};
  }
}

/** What the caller of PICC_Select gets over a noiseless field, and the one
    family of UIDs it gets wrong. */
module AnticollisionResults {
  import opened Options
  import opened Anticollision
  import opened AnticollisionField
  import opened AnticollisionWinner

  /** The UID bytes of a level, recognised by what stands in the first place. */
  function Untagged(bytes: seq<bv8>): (r: seq<bv8>)
    requires |bytes| == 4
    ensures |r| == if bytes[0] == CT then 3 else 4
  {
    if bytes[0] == CT then bytes[1..] else bytes
  }

  /** The caller's UID bytes when the levels up to this one have been copied. */
  function Gathered(w: Card, level: nat, before: seq<bv8>): (r: seq<bv8>)
    requires level <= Levels(w) && |before| == 10
    ensures |r| == 10
  {
    if level == 0 then before
    else Overwrite(Gathered(w, level - 1, before), First(level), Untagged(LevelBytes(w, level)))
  }

  /** The caller knows the first bits of the UID of w, and how long it is. */
  ghost predicate Tells(uid: Uid, w: Card, bits: nat) {
    && |uid.uidByte| == 10 && bits <= 8 * |w.uid|
    && (bits > 0 ==> uid.size == |w.uid|)
    && forall i | 0 <= i < bits :: Bit(uid.uidByte, i) == Bit(w.uid, i)
  }

  lemma KnownIs(uid: Uid, w: Card, bits: nat, level: nat)
    requires Tells(uid, w, bits) && 1 <= level <= Levels(w)
    ensures Tagged(uid, bits, level) <==> bits > 0 && level < Levels(w)
    ensures KnownAt(w, bits, level) == if Known(uid, bits, level) > 32 then 32 else Known(uid, bits, level)
  {
  }

  /** The known bits of a level are copied into the buffer, behind the tag if the
      UID goes on. */
  lemma PreparedKnows(uid: Uid, w: Card, bits: nat, buf: seq<bv8>, level: nat)
    requires |buf| == 9 && Tells(uid, w, bits) && 1 <= level <= Levels(w)
    ensures Knows(Prepared(uid, bits, buf, level), w, level, KnownAt(w, bits, level))
  {
    hide Bit, BytesToCopy, Tagged;
    KnownIs(uid, w, bits, level);
    var b := Prepared(uid, bits, buf, level);
    forall i | 0 <= i < KnownAt(w, bits, level) ensures Bit(b[2..6], i) == Bit(LevelBytes(w, level), i) {
      PreparedBit(uid, w, bits, buf, level, i);
    }
  }

  lemma PreparedBit(uid: Uid, w: Card, bits: nat, buf: seq<bv8>, level: nat, i: nat)
    requires |buf| == 9 && Tells(uid, w, bits) && 1 <= level <= Levels(w) && i < KnownAt(w, bits, level)
    ensures Bit(Prepared(uid, bits, buf, level)[2..6], i) == Bit(LevelBytes(w, level), i)
  {
    hide TestBit;
    KnownIs(uid, w, bits, level);
    var b := Prepared(uid, bits, buf, level);
    assert b[2..6][i / 8] == b[2 + i / 8];
    if level < Levels(w) && i < 8 {
      assert LevelBytes(w, level)[0] == CT;
    } else {
      var at := 8 * First(level) + (if level < Levels(w) then i - 8 else i);
      PreparedAt(uid, w, bits, buf, level, i);
      assert at % 8 == i % 8;
      hide Prepared, LevelBytes;
      assert Bit(uid.uidByte, at) == Bit(w.uid, at);
    }
  }

  lemma PreparedAt(uid: Uid, w: Card, bits: nat, buf: seq<bv8>, level: nat, i: nat)
    requires |buf| == 9 && Tells(uid, w, bits) && 1 <= level <= Levels(w) && i < KnownAt(w, bits, level)
    requires level < Levels(w) ==> i >= 8
    ensures var at := 8 * First(level) + (if level < Levels(w) then i - 8 else i);
            && at < bits
            && LevelBytes(w, level)[i / 8] == w.uid[at / 8]
            && Prepared(uid, bits, buf, level)[2 + i / 8] == uid.uidByte[at / 8]
  {
    KnownIs(uid, w, bits, level);
    var from := if level < Levels(w) then 1 else 0;
    var at := 8 * First(level) + i - 8 * from;
    assert at / 8 == First(level) + i / 8 - from;
    Copied(uid, w, bits, level, i);
    assert PreparedByte(uid, bits, buf, level, 2 + i / 8) == uid.uidByte[at / 8];
    hide PreparedByte, BytesToCopy, Tagged;
  }

  /** As many bytes are copied as hold the known bits. */
  lemma Copied(uid: Uid, w: Card, bits: nat, level: nat, i: nat)
    requires Tells(uid, w, bits) && 1 <= level <= Levels(w) && i < KnownAt(w, bits, level)
    ensures i / 8 < BytesToCopy(uid, bits, level) + if level < Levels(w) then 1 else 0
  {
    KnownIs(uid, w, bits, level);
  }

  lemma Acknowledges(crc: Crc, check: Check, o: Outcome, uid: Uid, w: Card, level: nat)
    requires Exact(crc, check) && 1 <= level <= Levels(w) && Chooses(o, w, level, check) && |uid.uidByte| == 10
    ensures var p := Acknowledged(crc, o, uid, level);
            var bytes := Overwrite(uid.uidByte, First(level), Untagged(LevelBytes(w, level)));
            if level == Levels(w) then p == Finished(Selected(OK, Uid(|w.uid|, bytes, w.sak), o.sent))
            else p.Deeper? && p.sent == o.sent && p.uid == uid.(uidByte := bytes)
  {
    assert crc(o.sent, [o.buf[6]]) == Some(check([o.buf[6]]));
    assert o.buf[2] == o.buf[2..6][0];
    assert o.buf[3..6] == o.buf[2..6][1..];
    assert Found(o.buf) == Untagged(LevelBytes(w, level));
  }

  lemma KnownIsAll(radio: Radio, crc: Crc, sent: seq<Frame>, buf: seq<bv8>, known: nat)
    requires |buf| == 9 && known > 32
    ensures Level(radio, crc, sent, buf, known) == Level(radio, crc, sent, buf, 32)
  {
  }

  lemma {:induction false} OneLevelSelects(radio: Radio, crc: Crc, cards: set<Card>, check: Check, sent: seq<Frame>,
                                           uid: Uid, bits: nat, buf: seq<bv8>, level: nat, w: Card)
    requires Noiseless(radio, cards, check) && Exact(crc, check)
    requires w in cards && Wins(w, cards, bits) && DistinctUids(cards) && 1 <= level <= Levels(w)
    requires After(cards, sent, check) == Narrowed(cards, w, level)
    requires |buf| == 9 && Tells(uid, w, bits) && bits <= 80
    ensures var o := LevelOutcome(radio, crc, sent, uid, bits, buf, level);
            Chooses(o, w, level, check)
            && After(cards, o.sent, check) == Moved(Narrowed(cards, w, level), LevelBytes(w, level))
  {
    hide Level, Prepared, Known, KnownAt, Wins, Leads, After, Noiseless;
    var b, known := Prepared(uid, bits, buf, level), KnownAt(w, bits, level);
    WinnerLeads(cards, w, bits, level);
    PreparedKnows(uid, w, bits, buf, level);
    KnownIs(uid, w, bits, level);
    if Known(uid, bits, level) > 32 { KnownIsAll(radio, crc, sent, b, Known(uid, bits, level)); }
    LevelChooses(radio, crc, cards, check, sent, b, known, w, Narrowed(cards, w, level));
  }

  /** The bytes a level has found are those of the UID. */
  lemma StillTells(uid: Uid, w: Card, bits: nat, level: nat)
    requires Tells(uid, w, bits) && 1 <= level < Levels(w)
    ensures Tells(uid.(uidByte := Overwrite(uid.uidByte, First(level), Untagged(LevelBytes(w, level)))), w, bits)
  {
    hide TestBit;
    var found := Untagged(LevelBytes(w, level));
    var bytes := Overwrite(uid.uidByte, First(level), found);
    assert found == w.uid[First(level)..First(level) + 3];
    forall i | 0 <= i < bits ensures Bit(bytes, i) == Bit(w.uid, i) {
      assert Bit(uid.uidByte, i) == Bit(w.uid, i);
      if First(level) <= i / 8 < First(level) + 3 {
        assert bytes[i / 8] == found[i / 8 - First(level)];
      } else {
        assert bytes[i / 8] == uid.uidByte[i / 8];
      }
    }
  }

  lemma {:induction false} LevelsSelect(radio: Radio, crc: Crc, cards: set<Card>, check: Check, sent: seq<Frame>,
                                        uid: Uid, bits: nat, before: seq<bv8>, buf: seq<bv8>, level: nat, w: Card)
    requires Noiseless(radio, cards, check) && Exact(crc, check)
    requires w in cards && Wins(w, cards, bits) && DistinctUids(cards) && 1 <= level <= Levels(w)
    requires After(cards, sent, check) == Narrowed(cards, w, level)
    requires |buf| == 9 && |before| == 10 && uid.uidByte == Gathered(w, level - 1, before)
    requires Tells(uid, w, bits) && bits <= 80
    ensures var r := SelectFrom(radio, crc, sent, uid, bits, buf, level);
            r.code == OK && r.uid == Uid(|w.uid|, Gathered(w, Levels(w), before), w.sak)
            && After(cards, r.sent, check) == Field({}, Levels(w) + 1, {w})
    decreases 4 - level
  {
    hide LevelOutcome, Acknowledged, Noiseless, Exact, DistinctUids, Wins, After, Tells;
    assert |uid.uidByte| == 10;
    OneLevelSelects(radio, crc, cards, check, sent, uid, bits, buf, level, w);
    var o := LevelOutcome(radio, crc, sent, uid, bits, buf, level);
    Acknowledges(crc, check, o, uid, w, level);
    if level == Levels(w) {
      WinnerAlone(cards, w);
    } else {
      FieldNarrows(cards, w, level);
      StillTells(uid, w, bits, level);
      var p := Acknowledged(crc, o, uid, level);
      LevelsSelect(radio, crc, cards, check, p.sent, p.uid, bits, before, p.buf, level + 1, w);
    }
  }

  /** A third-level UID part that begins like a cascade tag loses a byte. */
  predicate Swallowed(uid: seq<bv8>) {
    |uid| == 10 && uid[6] == CT
  }

  function Assembled(uid: seq<bv8>, before: seq<bv8>): (r: seq<bv8>)
    requires |uid| in {4, 7, 10} && |before| == 10
    ensures |r| == 10
  {
    if Swallowed(uid) then uid[..6] + uid[7..] + [before[9]] else uid + before[|uid|..]
  }

  lemma GatheredOnce(w: Card, before: seq<bv8>)
    requires |before| == 10
    ensures Gathered(w, 1, before) == if Levels(w) == 1 then w.uid + before[4..] else w.uid[..3] + before[3..]
  {
    assert Gathered(w, 0, before) == before;
    assert Untagged(LevelBytes(w, 1)) == if Levels(w) == 1 then w.uid else w.uid[..3];
    assert before[..0] == [];
  }

  lemma GatheredTwice(w: Card, before: seq<bv8>)
    requires |before| == 10 && Levels(w) >= 2
    ensures Gathered(w, 2, before) == if Levels(w) == 2 then w.uid + before[7..] else w.uid[..6] + before[6..]
  {
    GatheredOnce(w, before);
    assert Untagged(LevelBytes(w, 2)) == if Levels(w) == 2 then w.uid[3..] else w.uid[3..6];
  }

  lemma GatheredAll(w: Card, before: seq<bv8>)
    requires |before| == 10
    ensures Gathered(w, Levels(w), before) == Assembled(w.uid, before)
  {
    if Levels(w) == 1 {
      GatheredOnce(w, before);
    } else if Levels(w) == 2 {
      GatheredTwice(w, before);
    } else {
      GatheredThrice(w, before);
    }
  }

  lemma GatheredThrice(w: Card, before: seq<bv8>)
    requires |before| == 10 && Levels(w) == 3
    ensures Gathered(w, 3, before) == Assembled(w.uid, before)
  {
    var two := Gathered(w, 2, before);
    GatheredTwice(w, before);
    assert LevelBytes(w, 3) == w.uid[6..];
    assert Gathered(w, 3, before) == Overwrite(two, 6, Untagged(w.uid[6..]));
    ThirdLevelCopied(w.uid, before);
  }

  lemma ThirdLevelCopied(uid: seq<bv8>, before: seq<bv8>)
    requires |uid| == 10 && |before| == 10
    ensures Overwrite(uid[..6] + before[6..], 6, Untagged(uid[6..])) == Assembled(uid, before)
  {
    assert (uid[..6] + before[6..])[..6] == uid[..6];
    if uid[6] == CT {
      assert uid[6..][1..] == uid[7..];
      assert (uid[..6] + before[6..])[9..] == [before[9]];
    } else {
      assert uid[..6] + uid[6..] == uid;
    }
  }

  /** Woken cards, no noise, and as many known bits as the caller likes: PICC_Select
      succeeds, and only the card that wins every level among those that have these
      bits is left selected. */
  lemma {:induction false} SelectsTheWinner(radio: Radio, crc: Crc, cards: set<Card>, check: Check, uid: Uid,
                                            bits: nat, buf: seq<bv8>, w: Card)
    requires Noiseless(radio, cards, check) && Exact(crc, check)
    requires w in cards && Wins(w, cards, bits) && DistinctUids(cards)
    requires |buf| == 9 && Tells(uid, w, bits)
    ensures var r := PiccSelect(radio, crc, [], uid, bits, buf);
            r.code == OK && r.uid == Uid(|w.uid|, Assembled(w.uid, uid.uidByte), w.sak)
            && After(cards, r.sent, check) == Field({}, Levels(w) + 1, {w})
  {
    assert Narrowed(cards, w, 1).ready == cards;
    LevelsSelect(radio, crc, cards, check, [], uid, bits, uid.uidByte, buf, 1, w);
    GatheredAll(w, uid.uidByte);
  }

  /** When the whole UID is known, its card wins whatever else is in the field. */
  lemma KnownCardWins(w: Card, cards: set<Card>)
    ensures Wins(w, cards, 8 * |w.uid|)
  {
    forall level, c | 1 <= level <= Levels(w) && c in cards && SharesBelow(c, w, level)
      ensures Has(c, level, LevelBytes(w, level))
              || (level <= Levels(c) && !SameBits(LevelBytes(w, level), LevelBytes(c, level),
                                                  KnownAt(w, 8 * |w.uid|, level)))
    {
      SharersGoOn(c, w, level);
      assert KnownAt(w, 8 * |w.uid|, level) == 32;
      if SameBits(LevelBytes(w, level), LevelBytes(c, level), 32) {
        SameBytes(LevelBytes(w, level), LevelBytes(c, level));
      }
    }
  }

  /** Any card can be selected by its UID. */
  lemma {:induction false} SelectsTheKnown(radio: Radio, crc: Crc, cards: set<Card>, check: Check, uid: Uid,
                                           buf: seq<bv8>, w: Card)
    requires Noiseless(radio, cards, check) && Exact(crc, check) && w in cards && DistinctUids(cards)
    requires |buf| == 9 && |uid.uidByte| == 10 && uid.size == |w.uid| && w.uid <= uid.uidByte
    ensures var r := PiccSelect(radio, crc, [], uid, 8 * |w.uid|, buf);
            r.code == OK && r.uid.size == |w.uid| && r.uid.sak == w.sak
            && After(cards, r.sent, check) == Field({}, Levels(w) + 1, {w})
  {
    KnownCardWins(w, cards);
    assert Tells(uid, w, 8 * |w.uid|) by {
      forall i | 0 <= i < 8 * |w.uid| ensures Bit(uid.uidByte, i) == Bit(w.uid, i) {
        assert uid.uidByte[i / 8] == w.uid[i / 8];
      }
    }
    hide Tells, Wins, DistinctUids, Noiseless, Exact, After;
    SelectsTheWinner(radio, crc, cards, check, uid, 8 * |w.uid|, buf, w);
  }

  /** The UID handed back is the card's exactly when no byte was swallowed, or
      when the bytes around the swallowed one cannot tell. */
  lemma UidIsRight(w: Card, before: seq<bv8>)
    requires |before| == 10
    ensures Assembled(w.uid, before)[..|w.uid|] == w.uid
            <==> (Swallowed(w.uid) ==> w.uid[7..] == [CT, CT, CT] && before[9] == CT)
  {
    var r := Assembled(w.uid, before);
    if Swallowed(w.uid) {
      assert r[6] == w.uid[7] && r[7] == w.uid[8] && r[8] == w.uid[9] && r[9] == before[9];
    }
  }

  lemma OnlyCardWins(w: Card)
    ensures Wins(w, {w}, 0)
  {
  }

  lemma ByteLost(before: seq<bv8>)
    requires |before| == 10 && before[9] == 0
    ensures Assembled([1, 2, 3, 4, 5, 6, 0x88, 8, 9, 10], before) == [1, 2, 3, 4, 5, 6, 8, 9, 10, 0]
  {
  }

  /** One card alone, and its UID is not the one reported. */
  lemma WrongUid(radio: Radio, crc: Crc, check: Check, buf: seq<bv8>, w: Card)
    requires w.uid == [1, 2, 3, 4, 5, 6, 0x88, 8, 9, 10]
    requires Noiseless(radio, {w}, check) && Exact(crc, check)
    requires |buf| == 9
    ensures var r := PiccSelect(radio, crc, [], Uid(0, [0, 0, 0, 0, 0, 0, 0, 0, 0, 0], 0), 0, buf);
            r.code == OK && r.uid.size == 10 && r.uid.uidByte == [1, 2, 3, 4, 5, 6, 8, 9, 10, 0]
  {
    OnlyCardWins(w);
    assert DistinctUids({w});
    var before: seq<bv8> := [0, 0, 0, 0, 0, 0, 0, 0, 0, 0];
    SelectsTheWinner(radio, crc, {w}, check, Uid(0, before, 0), 0, buf, w);
    ByteLost(before);
  }
}

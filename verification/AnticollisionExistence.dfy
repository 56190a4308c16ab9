/** The selection theorem is about something: every field has a winner, and a
    radio that reports every field without noise. */
module AnticollisionExistence {
  import opened Anticollision
  import opened AnticollisionField
  import opened AnticollisionWinner

  lemma AboveTransitive(a: seq<bv8>, b: seq<bv8>, c: seq<bv8>)
    requires |a| == 4 && |b| == 4 && |c| == 4 && Above(a, b) && Above(b, c)
    ensures Above(a, c)
  {
    var j :| 0 <= j < 32 && Bit(a, j) && !Bit(b, j) && SameBits(a, b, j);
    var k :| 0 <= k < 32 && Bit(b, k) && !Bit(c, k) && SameBits(b, c, k);
    if j < k {
      assert Bit(b, j) == Bit(c, j);
      assert SameBits(a, c, j);
    } else {
      assert j != k;
      assert Bit(a, k) == Bit(b, k);
      assert SameBits(a, c, k);
    }
  }

  lemma {:induction false} FirstDifference(a: seq<bv8>, b: seq<bv8>, k: nat) returns (p: nat)
    requires |a| == 4 && |b| == 4 && a != b && k <= 32 && SameBits(a, b, k)
    ensures k <= p < 32 && SameBits(a, b, p) && Bit(a, p) != Bit(b, p)
    decreases 32 - k
  {
    if k == 32 {
      SameBytes(a, b);
      assert false;
    } else if Bit(a, k) != Bit(b, k) {
      p := k;
    } else {
      p := FirstDifference(a, b, k + 1);
    }
  }

  lemma AboveTotal(a: seq<bv8>, b: seq<bv8>)
    requires |a| == 4 && |b| == 4
    ensures a == b || Above(a, b) || Above(b, a)
  {
    if a != b {
      var p := FirstDifference(a, b, 0);
      assert SameBits(b, a, p);
    }
  }

  /** Equal to c at the level or above it. */
  ghost predicate AtLeast(w: Card, c: Card, level: nat)
    requires 1 <= level <= Levels(w) && level <= Levels(c)
  {
    LevelBytes(c, level) == LevelBytes(w, level) || Above(LevelBytes(w, level), LevelBytes(c, level))
  }

  lemma AtLeastTransitive(a: Card, b: Card, c: Card, level: nat)
    requires 1 <= level <= Levels(a) && level <= Levels(b) && level <= Levels(c)
    requires AtLeast(a, b, level) && AtLeast(b, c, level)
    ensures AtLeast(a, c, level)
  {
    if Above(LevelBytes(a, level), LevelBytes(b, level)) && Above(LevelBytes(b, level), LevelBytes(c, level)) {
      AboveTransitive(LevelBytes(a, level), LevelBytes(b, level), LevelBytes(c, level));
    }
  }

  lemma {:induction false} Highest(cards: set<Card>, level: nat) returns (w: Card)
    requires cards != {} && AtLevel(cards, level)
    ensures w in cards && forall c <- cards :: AtLeast(w, c, level)
    decreases |cards|
  {
    var x :| x in cards;
    var rest := cards - {x};
    assert forall c <- cards :: c == x || c in rest;
    if rest == {} {
      w := x;
    } else {
      var v := Highest(rest, level);
      AboveTotal(LevelBytes(x, level), LevelBytes(v, level));
      if AtLeast(x, v, level) {
        w := x;
        forall c | c in rest ensures AtLeast(w, c, level) {
          AtLeastTransitive(x, v, c, level);
        }
      } else {
        w := v;
      }
    }
  }

  ghost predicate WinsBelow(w: Card, cards: set<Card>, level: nat) {
    forall k, c | 1 <= k < level && k <= Levels(w) && c in cards && SharesBelow(c, w, k) ::
      k <= Levels(c) && AtLeast(w, c, k)
  }

  lemma SharesWith(c: Card, v: Card, w: Card, level: nat)
    requires level <= Levels(w) && level <= Levels(v) && SharesBelow(v, w, level)
    ensures forall k | 1 <= k <= level :: SharesBelow(c, v, k) == SharesBelow(c, w, k)
  {
    forall k | 1 <= k < level ensures LevelBytes(v, k) == LevelBytes(w, k) {
      assert Has(v, k, LevelBytes(w, k));
    }
  }

  lemma {:induction false} Climb(cards: set<Card>, w: Card, level: nat) returns (v: Card)
    requires w in cards && 1 <= level <= Levels(w) && WinsBelow(w, cards, level)
    ensures v in cards && Wins(v, cards, 0)
    decreases 3 - level
  {
    var sharers := set c <- cards | SharesBelow(c, w, level);
    forall c | c in sharers ensures level <= Levels(c) {
      SharersGoOn(c, w, level);
    }
    assert SharesBelow(w, w, level);
    assert w in sharers;
    v := Highest(sharers, level);
    forall k, c | 1 <= k < level + 1 && c in cards && SharesBelow(c, v, k)
      ensures k <= Levels(c) && AtLeast(v, c, k)
    {
      SharesWith(c, v, w, level);
      if k < level {
        assert AtLeast(w, c, k);
        assert Has(v, k, LevelBytes(w, k));
      } else {
        assert c in sharers;
      }
    }
    assert WinsBelow(v, cards, level + 1);
    if level < Levels(v) {
      v := Climb(cards, v, level + 1);
    } else {
      AllLevelsWon(v, cards);
    }
  }

  lemma AllLevelsWon(w: Card, cards: set<Card>)
    requires WinsBelow(w, cards, Levels(w) + 1)
    ensures Wins(w, cards, 0)
  {
    forall level, c | 1 <= level <= Levels(w) && c in cards && SharesBelow(c, w, level)
      ensures Has(c, level, LevelBytes(w, level)) || (level <= Levels(c)
                                                      && Above(LevelBytes(w, level), LevelBytes(c, level)))
    {
      assert AtLeast(w, c, level);
    }
  }

  lemma SomeCardWins(cards: set<Card>) returns (w: Card)
    requires cards != {}
    ensures w in cards && Wins(w, cards, 0)
  {
    var c :| c in cards;
    w := Climb(cards, c, 1);
  }

  // A radio without noise.

  ghost predicate Agree(heard: set<Card>, level: nat, k: nat)
    requires AtLevel(heard, level) && k <= 32
  {
    forall c <- heard, d <- heard :: SameBits(LevelBytes(c, level), LevelBytes(d, level), k)
  }

  ghost predicate DifferAt(heard: set<Card>, level: nat, p: nat)
    requires AtLevel(heard, level) && p < 32
  {
    exists c <- heard, d <- heard :: Bit(LevelBytes(c, level), p) && !Bit(LevelBytes(d, level), p)
  }

  lemma AgreeOnOneMore(heard: set<Card>, level: nat, k: nat)
    requires AtLevel(heard, level) && k < 32 && Agree(heard, level, k) && !DifferAt(heard, level, k)
    ensures Agree(heard, level, k + 1)
  {
    forall c, d | c in heard && d in heard
      ensures SameBits(LevelBytes(c, level), LevelBytes(d, level), k + 1)
    {
      assert SameBits(LevelBytes(c, level), LevelBytes(d, level), k);
      assert Bit(LevelBytes(c, level), k) == Bit(LevelBytes(d, level), k);
    }
  }

  lemma {:induction false} WhereTheyPart(heard: set<Card>, level: nat, k: nat, c: Card, d: Card) returns (p: nat)
    requires AtLevel(heard, level) && k <= 32 && Agree(heard, level, k)
    requires c in heard && d in heard && LevelBytes(c, level) != LevelBytes(d, level)
    ensures k <= p < 32 && Agree(heard, level, p) && DifferAt(heard, level, p)
    decreases 32 - k
  {
    if k == 32 {
      SameBytes(LevelBytes(c, level), LevelBytes(d, level));
      assert false;
    } else if DifferAt(heard, level, k) {
      p := k;
    } else {
      AgreeOnOneMore(heard, level, k);
      p := WhereTheyPart(heard, level, k + 1, c, d);
    }
  }

  /** The bytes of a level from the one with the first unknown bit on. */
  lemma RestCarries(answer: Answer, bytes: seq<bv8>, known: nat)
    requires answer.Received? && |bytes| == 4 && known < 32
    requires answer.fifo == bytes[known / 8..] + [0]
    ensures |answer.fifo| == 5 - known / 8 && Carries(answer, bytes, known, 32)
  {
    hide TestBit;
    forall i | known <= i < 32 ensures Bit(answer.fifo, i - 8 * (known / 8)) == Bit(bytes, i) {
      assert answer.fifo[i / 8 - known / 8] == bytes[known / 8..][i / 8 - known / 8];
    }
  }

  lemma CarriesForAll(answer: Answer, a: seq<bv8>, b: seq<bv8>, known: nat, upTo: nat)
    requires answer.Received? && |a| == 4 && |b| == 4 && upTo <= 32
    requires Carries(answer, a, known, 32) && SameBits(a, b, upTo)
    ensures Carries(answer, b, known, upTo)
  {
    forall i | known <= i < upTo ensures Bit(answer.fifo, i - 8 * (known / 8)) == Bit(b, i) {
      assert Bit(a, i) == Bit(b, i);
    }
  }

  lemma UnisonAnswered(heard: set<Card>, level: nat, known: nat, c: Card) returns (answer: Answer)
    requires AtLevel(heard, level) && known < 32 && c in heard
    requires forall d <- heard :: LevelBytes(d, level) == LevelBytes(c, level)
    ensures Unison(heard, level, known, answer)
  {
    answer := Received(LevelBytes(c, level)[known / 8..] + [0], 0, 0, false, true, 0);
    RestCarries(answer, LevelBytes(c, level), known);
  }

  lemma ClashAnswered(heard: set<Card>, level: nat, known: nat, c: Card, p: nat) returns (answer: Answer)
    requires AtLevel(heard, level) && known <= p < 32 && c in heard
    requires Agree(heard, level, p) && DifferAt(heard, level, p)
    ensures Clash(heard, level, known, answer)
  {
    var position := if p == 31 then 0 else p + 1;
    answer := Received(LevelBytes(c, level)[known / 8..] + [0], 0, 0, true, false, position);
    RestCarries(answer, LevelBytes(c, level), known);
    ClashReported(heard, level, known, c, p, answer);
  }

  lemma ClashReported(heard: set<Card>, level: nat, known: nat, c: Card, p: nat, answer: Answer)
    requires AtLevel(heard, level) && known <= p < 32 && c in heard
    requires Agree(heard, level, p) && DifferAt(heard, level, p)
    requires answer.Received? && answer.collision && !answer.noPosition && Position(answer) == p + 1
    requires |answer.fifo| == 5 - known / 8 && Carries(answer, LevelBytes(c, level), known, 32)
    ensures Clash(heard, level, known, answer)
  {
    forall d | d in heard ensures Carries(answer, LevelBytes(d, level), known, p) {
      assert SameBits(LevelBytes(c, level), LevelBytes(d, level), p);
      CarriesForAll(answer, LevelBytes(c, level), LevelBytes(d, level), known, p);
    }
    var a, b :| a in heard && b in heard && Bit(LevelBytes(a, level), p) && !Bit(LevelBytes(b, level), p);
  }

  lemma BitsAnswered(heard: set<Card>, level: nat, known: nat) returns (answer: Answer)
    requires AtLevel(heard, level) && known < 32 && Agree(heard, level, known)
    ensures AnswersBits(heard, level, known, answer)
  {
    hide Unison, Clash, Carries, Agree, LevelBytes;
    if heard == {} {
      answer := Silence;
    } else if forall c <- heard, d <- heard :: LevelBytes(c, level) == LevelBytes(d, level) {
      var c :| c in heard;
      answer := UnisonAnswered(heard, level, known, c);
    } else {
      var c, d :| c in heard && d in heard && LevelBytes(c, level) != LevelBytes(d, level);
      var p := WhereTheyPart(heard, level, known, c, d);
      answer := ClashAnswered(heard, level, known, c, p);
    }
  }

  lemma SelectAnswered(picked: set<Card>, level: nat, check: Check) returns (answer: Answer)
    requires AtLevel(picked, level)
    ensures AnswersSelect(picked, level, check, answer)
  {
    if picked == {} {
      answer := Silence;
    } else {
      var c :| c in picked;
      var sak := LevelSak(c, level);
      answer := Received([sak, check([sak]).0, check([sak]).1], 0, 0, false, true, 0);
    }
  }

  lemma FrameAnswered(field: Field, f: Frame, check: Check) returns (answer: Answer)
    ensures Answers(field, f, check, answer)
  {
    if IsSelect(f, field.level, check) {
      answer := SelectAnswered(Picked(field, f.data[2..6]), field.level, check);
    } else if IsAnticollision(f, field.level) {
      var heard := set c <- field.ready | Hears(c, field.level, f);
      forall c, d | c in heard && d in heard
        ensures SameBits(LevelBytes(c, field.level), LevelBytes(d, field.level), KnownBits(f))
      {
        HeardAlike(c, d, field.level, f);
      }
      answer := BitsAnswered(heard, field.level, KnownBits(f));
    } else {
      answer := Silence;
    }
  }

  lemma HeardAlike(c: Card, d: Card, level: nat, f: Frame)
    requires IsAnticollision(f, level) && Hears(c, level, f) && Hears(d, level, f)
    ensures SameBits(LevelBytes(c, level), LevelBytes(d, level), KnownBits(f))
  {
    forall i | 0 <= i < KnownBits(f) ensures Bit(LevelBytes(c, level), i) == Bit(LevelBytes(d, level), i) {
      assert Bit(LevelBytes(c, level), i) == Bit(f.data[2..], i);
    }
  }

  ghost function Reply(field: Field, f: Frame, check: Check): (answer: Answer)
    ensures Answers(field, f, check, answer)
  {
    assert exists a :: Answers(field, f, check, a) by {
      var a := FrameAnswered(field, f, check);
    }
    var answer :| Answers(field, f, check, answer);
    answer
  }

  /** A radio that reports just these cards. */
  ghost function QuietRadio(cards: set<Card>, check: Check): (radio: Radio)
    ensures Noiseless(radio, cards, check)
  {
    var radio := (sent: seq<Frame>) =>
      if sent == [] then Silence
      else Reply(After(cards, sent[..|sent| - 1], check), sent[|sent| - 1], check);
    assert forall sent: seq<Frame>, f: Frame :: (sent + [f])[..|sent + [f]| - 1] == sent;
    radio
  }
}

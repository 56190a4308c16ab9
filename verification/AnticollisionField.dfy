/** The cards in the field: what each of them hears and answers, following
    section 6.5.4 of ISO/IEC 14443-3. */
module AnticollisionField {
  import opened Anticollision

  datatype CardData = CardData(uid: seq<bv8>, sak: bv8)

  /** No UID of one or two levels may look as if it went on, and only a card
      with a level to go sets the cascade bit. */
  predicate Standard(c: CardData) {
    && (|c.uid| == 4 || |c.uid| == 7 || |c.uid| == 10)
    && (|c.uid| == 4 ==> c.uid[0] != CT)
    && (|c.uid| == 7 ==> c.uid[3] != CT)
    && c.sak & 0x04 == 0
  }

  type Card = c: CardData | Standard(c) witness CardData([0, 0, 0, 0], 0)

  function Levels(c: Card): (n: nat)
    ensures 1 <= n <= 3
  {
    (|c.uid| - 1) / 3
  }

  /** Bytes 2 to 5 of the frames of a level. */
  function LevelBytes(c: Card, level: nat): (r: seq<bv8>)
    requires 1 <= level <= Levels(c)
    ensures |r| == 4
  {
    if level == Levels(c) then c.uid[First(level)..]
    else [CT] + c.uid[First(level)..First(level) + 3]
  }

  function LevelSak(c: Card, level: nat): bv8
    requires 1 <= level <= Levels(c)
  {
    if level == Levels(c) then c.sak else 0x04
  }

  datatype Field = Field(ready: set<Card>, level: nat, active: set<Card>)

  /** The two check bytes every party computes. */
  type Check = seq<bv8> -> (bv8, bv8)

  predicate IsSelect(f: Frame, level: nat, check: Check) {
    && |f.data| == 9 && f.lastBits == 0 && 1 <= level <= 3
    && f.data[0] == Sel(level) && f.data[1] == 0x70
    && f.data[6] == Bcc(f.data[2..6])
    && (f.data[7], f.data[8]) == check(f.data[..7])
  }

  predicate Has(c: Card, level: nat, bytes: seq<bv8>) {
    1 <= level <= Levels(c) && LevelBytes(c, level) == bytes
  }

  function Picked(field: Field, bytes: seq<bv8>): set<Card> {
    set c <- field.ready | Has(c, field.level, bytes)
  }

  /** A SELECT moves the cards it names on and sends the others to sleep. */
  function Moved(field: Field, bytes: seq<bv8>): Field {
    Field((set c <- Picked(field, bytes) | Levels(c) > field.level), field.level + 1,
          (set c <- Picked(field, bytes) | Levels(c) == field.level))
  }

  function Step(field: Field, f: Frame, check: Check): Field {
    if IsSelect(f, field.level, check) then Moved(field, f.data[2..6]) else field
  }

  /** The field after some frames, all of cards having been woken up. */
  function After(cards: set<Card>, sent: seq<Frame>, check: Check): Field {
    if sent == [] then Field(cards, 1, {})
    else Step(After(cards, sent[..|sent| - 1], check), sent[|sent| - 1], check)
  }

  /** How many bits of the level an anticollision frame carries. */
  function KnownBits(f: Frame): int {
    8 * (|f.data| - 2) - if f.lastBits != 0 then 8 - f.lastBits else 0
  }

  predicate IsAnticollision(f: Frame, level: nat) {
    && |f.data| >= 2 && 1 <= level <= 3 && 0 <= KnownBits(f) < 32
    && f.data[0] == Sel(level)
    && f.data[1] >> 4 == Small(2 + KnownBits(f) / 8)
    && f.data[1] & 0x0F == Small(f.lastBits)
    && f.rxAlign == f.lastBits
  }

  /** The first known bits of a and b are the same. */
  predicate SameBits(a: seq<bv8>, b: seq<bv8>, known: nat)
    requires known <= 8 * |a| && known <= 8 * |b|
  {
    forall i | 0 <= i < known :: Bit(a, i) == Bit(b, i)
  }

  predicate Hears(c: Card, level: nat, f: Frame)
    requires IsAnticollision(f, level)
  {
    level <= Levels(c) && SameBits(LevelBytes(c, level), f.data[2..], KnownBits(f))
  }

  /** The answer holds bits known to upTo of the level, aligned to whole bytes. */
  predicate Carries(answer: Answer, bytes: seq<bv8>, known: nat, upTo: nat)
    requires answer.Received? && |bytes| == 4 && upTo <= 32
  {
    && upTo - 8 * (known / 8) <= 8 * |answer.fifo|
    && forall i | known <= i < upTo :: Bit(answer.fifo, i - 8 * (known / 8)) == Bit(bytes, i)
  }

  ghost predicate AtLevel(cards: set<Card>, level: nat) {
    forall c <- cards :: 1 <= level <= Levels(c)
  }

  /** The first bit on which two cards differ is reported as the collision, and
      what is received from there on is anything. */
  ghost predicate Clash(heard: set<Card>, level: nat, known: nat, answer: Answer)
    requires AtLevel(heard, level)
  {
    && answer.Received? && answer.collision && !answer.noPosition && |answer.fifo| <= 7 - known / 8
    && Position(answer) > known
    && (forall c <- heard :: Carries(answer, LevelBytes(c, level), known, Position(answer) - 1))
    && (exists c <- heard, d <- heard ::
          Bit(LevelBytes(c, level), Position(answer) - 1) && !Bit(LevelBytes(d, level), Position(answer) - 1))
  }

  /** Cards that agree are heard as one. */
  ghost predicate Unison(heard: set<Card>, level: nat, known: nat, answer: Answer)
    requires AtLevel(heard, level)
  {
    && answer.Received? && !answer.collision && |answer.fifo| == 5 - known / 8
    && forall c <- heard :: Carries(answer, LevelBytes(c, level), known, 32)
  }

  ghost predicate AnswersBits(heard: set<Card>, level: nat, known: nat, answer: Answer)
    requires AtLevel(heard, level)
  {
    if heard == {} then answer == Silence
    else if forall c <- heard, d <- heard :: LevelBytes(c, level) == LevelBytes(d, level) then
      Unison(heard, level, known, answer)
    else
      Clash(heard, level, known, answer)
  }

  /** A card selected for good gives its own acknowledgement, others say that
      there is more to come. */
  ghost predicate AnswersSelect(picked: set<Card>, level: nat, check: Check, answer: Answer)
    requires AtLevel(picked, level)
  {
    if picked == {} then answer == Silence
    else
      (forall c <- picked, d <- picked :: LevelSak(c, level) == LevelSak(d, level)) ==>
      forall c <- picked ::
        && answer.Received? && !answer.collision && answer.lastBits == 0
        && answer.fifo == [LevelSak(c, level), check([LevelSak(c, level)]).0, check([LevelSak(c, level)]).1]
  }

  ghost predicate Answers(field: Field, f: Frame, check: Check, answer: Answer) {
    && (IsSelect(f, field.level, check) ==> AnswersSelect(Picked(field, f.data[2..6]), field.level, check, answer))
    && (IsAnticollision(f, field.level) ==>
      AnswersBits((set c <- field.ready | Hears(c, field.level, f)), field.level, KnownBits(f), answer))
  }

  /** Every frame is answered by the cards and by nothing else. */
  ghost predicate Noiseless(radio: Radio, cards: set<Card>, check: Check) {
    forall sent: seq<Frame>, f: Frame :: Answers(After(cards, sent, check), f, check, radio(sent + [f]))
  }

  // The winner.

  /** First in the order of transmission where the two differ, a has a 1. */
  ghost predicate Above(a: seq<bv8>, b: seq<bv8>)
    requires |a| == 4 && |b| == 4
  {
    exists k | 0 <= k < 32 :: Bit(a, k) && !Bit(b, k) && SameBits(a, b, k)
  }

  /** Every level before this one is the same for both. */
  predicate SharesBelow(c: Card, w: Card, level: nat)
    requires level <= Levels(w)
  {
    forall k | 1 <= k < level :: Has(c, k, LevelBytes(w, k))
  }

  /** How many bits of a level are known when the first bits of the UID of w are:
      three bytes of it stand in each level but the last, behind the cascade tag. */
  function KnownAt(w: Card, bits: nat, level: nat): (n: nat)
    requires 1 <= level <= Levels(w)
    ensures n <= 32
  {
    var own := if bits < 24 * (level - 1) then 0 else bits - 24 * (level - 1);
    var n := if bits > 0 && level < Levels(w) then own + 8 else own;
    if n > 32 then 32 else n
  }

  /** Level by level, w comes out above every card that has not dropped out and
      has the bits that are known. */
  ghost predicate Wins(w: Card, cards: set<Card>, bits: nat) {
    forall level, c | 1 <= level <= Levels(w) && c in cards && SharesBelow(c, w, level) ::
      || Has(c, level, LevelBytes(w, level))
      || (level <= Levels(c) && Above(LevelBytes(w, level), LevelBytes(c, level)))
      || (level <= Levels(c) && !SameBits(LevelBytes(w, level), LevelBytes(c, level), KnownAt(w, bits, level)))
  }

  ghost predicate DistinctUids(cards: set<Card>) {
    forall c <- cards, d <- cards :: c.uid == d.uid ==> c == d
  }
}

/** PICC_Select as a computation on the frame buffer: what it sends, what it
    makes of each answer, and what it leaves in the caller's UID. */
module Anticollision {
  import opened Options

  type Bits3 = n: nat | n < 8
  type Bits5 = n: nat | n < 32

  datatype Code = OK | ERROR | COLLISION | TIMEOUT | NO_ROOM | INTERNAL_ERROR | INVALID | CRC_WRONG

  const CT: bv8 := 0x88

  /** What one transmission puts on the air, and where its answer is to start. */
  datatype Frame = Frame(data: seq<bv8>, lastBits: Bits3, rxAlign: Bits3)

  /** What the reader chip reports. A read past the end of its queue gives beyond. */
  datatype Answer =
    | Silence
    | Garbled
    | Received(fifo: seq<bv8>, lastBits: Bits3, beyond: bv8, collision: bool, noPosition: bool, position: Bits5)

  /** The chip's answer may depend on everything sent so far. */
  type Radio = seq<Frame> -> Answer
  type Crc = (seq<Frame>, seq<bv8>) -> Option<(bv8, bv8)>

  datatype Uid = Uid(size: nat, uidByte: seq<bv8>, sak: bv8)

  // Bits of a byte, lowest first.

  function Small(n: Bits3): bv8 {
    if n == 0 then 0 else if n == 1 then 1 else if n == 2 then 2 else if n == 3 then 3
    else if n == 4 then 4 else if n == 5 then 5 else if n == 6 then 6 else 7
  }

  function Mask(k: Bits3): bv8 {
    if k == 0 then 1 else if k == 1 then 2 else if k == 2 then 4 else if k == 3 then 8
    else if k == 4 then 0x10 else if k == 5 then 0x20 else if k == 6 then 0x40 else 0x80
  }

  /** Bit positions k..7. */
  function FromBit(k: Bits3): bv8 {
    if k == 0 then 0xFF else if k == 1 then 0xFE else if k == 2 then 0xFC else if k == 3 then 0xF8
    else if k == 4 then 0xF0 else if k == 5 then 0xE0 else if k == 6 then 0xC0 else 0x80
  }

  predicate TestBit(b: bv8, k: Bits3) {
    b & Mask(k) != 0
  }

  /** Bit i of a string of bytes in the order of transmission. */
  predicate Bit(s: seq<bv8>, i: nat)
    requires i < 8 * |s|
  {
    TestBit(s[i / 8], i % 8)
  }

  function Merge(low: bv8, high: bv8, k: Bits3): bv8 {
    (low & !FromBit(k)) | (high & FromBit(k))
  }

  // The frames.

  function Sel(level: nat): bv8
    requires 1 <= level <= 3
  {
    if level == 1 then 0x93 else if level == 2 then 0x95 else 0x97
  }

  function Nvb(whole: Bits3, extra: Bits3): bv8 {
    (Small(whole) << 4) + Small(extra)
  }

  function Bcc(uid: seq<bv8>): bv8
    requires |uid| == 4
  {
    uid[0] ^ uid[1] ^ uid[2] ^ uid[3]
  }

  function ReadByte(buf: seq<bv8>, at: nat, fifo: seq<bv8>, beyond: bv8, rxAlign: Bits3, i: nat): bv8
    requires i < |buf|
  {
    if fifo == [] || i < at then buf[i]
    else if i == at && rxAlign != 0 then Merge(buf[i], fifo[0], rxAlign)
    else if i < at + |fifo| then fifo[i - at]
    else if i == at + 1 && rxAlign != 0 then beyond
    else buf[i]
  }

  /** The buffer after the chip's queue has been read into it. An aligned read
      of a single byte takes a second one. */
  function ReadFifo(buf: seq<bv8>, at: nat, fifo: seq<bv8>, beyond: bv8, rxAlign: Bits3): (r: seq<bv8>)
    ensures |r| == |buf|
  {
    seq(|buf|, i requires 0 <= i < |buf| => ReadByte(buf, at, fifo, beyond, rxAlign, i))
  }

  datatype Exchange = Exchange(code: Code, buf: seq<bv8>, length: nat, lastBits: Bits3)

  function Exchanged(answer: Answer, buf: seq<bv8>, at: nat, room: nat, lastBits: Bits3, rxAlign: Bits3): (e: Exchange)
    ensures |e.buf| == |buf|
  {
    match answer
    case Silence => Exchange(TIMEOUT, buf, room, lastBits)
    case Garbled => Exchange(ERROR, buf, room, lastBits)
    case Received(fifo, last, beyond, collision, _, _) =>
      if |fifo| > room then Exchange(NO_ROOM, buf, room, lastBits)
      else
        Exchange(if collision then COLLISION else OK, ReadFifo(buf, at, fifo, beyond, rxAlign), |fifo|, last)
  }

  // One cascade level.

  datatype Outcome = Outcome(code: Code, sent: seq<Frame>, buf: seq<bv8>, length: nat, lastBits: Bits3)

  function SelectBuffer(buf: seq<bv8>): (r: seq<bv8>)
    requires |buf| == 9
    ensures |r| == 9
  {
    buf[1 := 0x70][6 := Bcc(buf[2..6])]
  }

  function Selection(radio: Radio, crc: Crc, sent: seq<Frame>, buf: seq<bv8>): (o: Outcome)
    requires |buf| == 9
    ensures |o.buf| == 9
  {
    var b := SelectBuffer(buf);
    match crc(sent, b[..7])
    case None => Outcome(TIMEOUT, sent, b, 0, 0)
    case Some((low, high)) =>
      var c := b[7 := low][8 := high];
      var on := sent + [Frame(c, 0, 0)];
      var e := Exchanged(radio(on), c, 6, 3, 0, 0);
      var code := if e.code == COLLISION && !radio(on).noPosition then INTERNAL_ERROR else e.code;
      Outcome(code, on, e.buf, e.length, e.lastBits)
  }

  function NvbBuffer(buf: seq<bv8>, known: nat): (r: seq<bv8>)
    requires |buf| == 9 && known < 32
    ensures |r| == 9
  {
    buf[1 := Nvb(2 + known / 8, known % 8)]
  }

  function KnownFrame(buf: seq<bv8>, known: nat): Frame
    requires |buf| == 9 && known < 32
  {
    var used := 2 + known / 8 + if known % 8 != 0 then 1 else 0;
    Frame(NvbBuffer(buf, known)[..used], known % 8, known % 8)
  }

  function WithBit(buf: seq<bv8>, known: nat): (r: seq<bv8>)
    requires |buf| == 9 && 1 <= known <= 32
    ensures |r| == 9
  {
    var index := 1 + known / 8 + if known % 8 != 0 then 1 else 0;
    buf[index := buf[index] | Mask((known - 1) % 8)]
  }

  function Position(answer: Answer): (p: nat)
    requires answer.Received?
    ensures 1 <= p <= 32
  {
    if answer.position == 0 then 32 else answer.position
  }

  datatype Round = Stopped(outcome: Outcome) | Going(sent: seq<Frame>, buf: seq<bv8>, known: nat)

  /** What a collision teaches: the card with the colliding bit set is chosen. */
  function Collided(answer: Answer, sent: seq<Frame>, e: Exchange, known: nat): (r: Round)
    requires answer.Received? && |e.buf| == 9
    ensures r.Stopped? ==> |r.outcome.buf| == 9 && r.outcome.code != OK
    ensures r.Going? ==> |r.buf| == 9 && known < r.known <= 32
  {
    if answer.noPosition then Stopped(Outcome(COLLISION, sent, e.buf, e.length, e.lastBits))
    else if Position(answer) <= known then Stopped(Outcome(INTERNAL_ERROR, sent, e.buf, e.length, e.lastBits))
    else Going(sent, WithBit(e.buf, Position(answer)), Position(answer))
  }

  /** One anticollision frame and its answer. */
  function Ask(radio: Radio, sent: seq<Frame>, buf: seq<bv8>, known: nat): (r: Round)
    requires |buf| == 9 && known < 32
    ensures r.Stopped? ==> |r.outcome.buf| == 9 && r.outcome.code != OK
    ensures r.Going? ==> |r.buf| == 9 && known < r.known <= 32
  {
    var on := sent + [KnownFrame(buf, known)];
    var at := 2 + known / 8;
    var e := Exchanged(radio(on), NvbBuffer(buf, known), at, 9 - at, known % 8, known % 8);
    match e.code
    case COLLISION => Collided(radio(on), on, e, known)
    case OK => Going(on, e.buf, 32)
    case _ => Stopped(Outcome(e.code, on, e.buf, e.length, e.lastBits))
  }

  /** The frames and answers of one level from the moment known bits are known. */
  function Level(radio: Radio, crc: Crc, sent: seq<Frame>, buf: seq<bv8>, known: nat): (o: Outcome)
    requires |buf| == 9
    ensures |o.buf| == 9
    decreases if known < 32 then 32 - known else 0
  {
    if known >= 32 then Selection(radio, crc, sent, buf)
    else
      match Ask(radio, sent, buf, known)
      case Stopped(outcome) => outcome
      case Going(on, more, bits) => Level(radio, crc, on, more, bits)
  }

  // The whole UID.

  function First(level: nat): nat
    requires level >= 1
  {
    3 * (level - 1)
  }

  predicate Tagged(uid: Uid, validBits: nat, level: nat) {
    validBits != 0 && ((level == 1 && uid.size > 4) || (level == 2 && uid.size > 7))
  }

  function LevelBits(validBits: nat, level: nat): nat
    requires level >= 1
  {
    if validBits < 8 * First(level) then 0 else validBits - 8 * First(level)
  }

  function Known(uid: Uid, validBits: nat, level: nat): nat
    requires level >= 1
  {
    LevelBits(validBits, level) + if Tagged(uid, validBits, level) then 8 else 0
  }

  function BytesToCopy(uid: Uid, validBits: nat, level: nat): nat
    requires level >= 1
  {
    var n := (LevelBits(validBits, level) + 7) / 8;
    var most := if Tagged(uid, validBits, level) then 3 else 4;
    if n > most then most else n
  }

  function PreparedByte(uid: Uid, validBits: nat, buf: seq<bv8>, level: nat, i: nat): bv8
    requires |buf| == 9 && |uid.uidByte| == 10 && validBits <= 80 && 1 <= level <= 3 && i < 9
  {
    var from := if Tagged(uid, validBits, level) then 3 else 2;
    if i == 0 then Sel(level)
    else if from <= i < from + BytesToCopy(uid, validBits, level) then uid.uidByte[First(level) + i - from]
    else if i == 2 && Tagged(uid, validBits, level) then CT
    else buf[i]
  }

  function Prepared(uid: Uid, validBits: nat, buf: seq<bv8>, level: nat): (r: seq<bv8>)
    requires |buf| == 9 && |uid.uidByte| == 10 && validBits <= 80 && 1 <= level <= 3
    ensures |r| == 9
  {
    seq(9, i requires 0 <= i < 9 => PreparedByte(uid, validBits, buf, level, i))
  }

  /** The bytes a level has found, without a cascade tag. */
  function Found(buf: seq<bv8>): (r: seq<bv8>)
    requires |buf| == 9
    ensures |r| == if buf[2] == CT then 3 else 4
  {
    if buf[2] == CT then buf[3..6] else buf[2..6]
  }

  function Overwrite(s: seq<bv8>, at: nat, t: seq<bv8>): (r: seq<bv8>)
    requires at + |t| <= |s|
    ensures |r| == |s|
  {
    s[..at] + t + s[at + |t|..]
  }

  datatype Selected = Selected(code: Code, uid: Uid, sent: seq<Frame>)

  datatype Progress = Finished(selected: Selected) | Deeper(sent: seq<Frame>, uid: Uid, buf: seq<bv8>)

  /** What the acknowledgement at the end of a level decides. */
  function Acknowledged(crc: Crc, o: Outcome, uid: Uid, level: nat): (p: Progress)
    requires |o.buf| == 9 && |uid.uidByte| == 10 && 1 <= level <= 3
    ensures p.Deeper? ==> |p.buf| == 9 && |p.uid.uidByte| == 10 && p.sent == o.sent
    ensures p.Finished? ==> p.selected.sent == o.sent
  {
    if o.code != OK then Finished(Selected(o.code, uid, o.sent))
    else
      var more := uid.(uidByte := Overwrite(uid.uidByte, First(level), Found(o.buf)));
      if o.length != 3 || o.lastBits != 0 then Finished(Selected(ERROR, more, o.sent))
      else
        match crc(o.sent, [o.buf[6]])
        case None => Finished(Selected(TIMEOUT, more, o.sent))
        case Some((low, high)) =>
          if low != o.buf[7] || high != o.buf[8] then Finished(Selected(CRC_WRONG, more, o.sent))
          else if o.buf[6] & 0x04 != 0 then Deeper(o.sent, more, o.buf[2 := low][3 := high])
          else Finished(Selected(OK, more.(sak := o.buf[6], size := 3 * level + 1), o.sent))
  }

  function LevelOutcome(radio: Radio, crc: Crc, sent: seq<Frame>, uid: Uid, validBits: nat, buf: seq<bv8>,
                        level: nat): (o: Outcome)
    requires |buf| == 9 && |uid.uidByte| == 10 && validBits <= 80 && 1 <= level <= 3
    ensures |o.buf| == 9
  {
    Level(radio, crc, sent, Prepared(uid, validBits, buf, level), Known(uid, validBits, level))
  }

  /** A fourth level does not exist. */
  function SelectFrom(radio: Radio, crc: Crc, sent: seq<Frame>, uid: Uid, validBits: nat, buf: seq<bv8>,
                      level: nat): Selected
    requires |buf| == 9 && |uid.uidByte| == 10 && validBits <= 80 && 1 <= level <= 4
    decreases 4 - level
  {
    if level == 4 then Selected(INTERNAL_ERROR, uid, sent)
    else
      match Acknowledged(crc, LevelOutcome(radio, crc, sent, uid, validBits, buf, level), uid, level)
      case Finished(selected) => selected
      case Deeper(on, more, left) => SelectFrom(radio, crc, on, more, validBits, left, level + 1)
  }

  function PiccSelect(radio: Radio, crc: Crc, sent: seq<Frame>, uid: Uid, validBits: nat, buf: seq<bv8>): Selected
    requires |buf| == 9 && |uid.uidByte| == 10
  {
    if validBits > 80 then Selected(INVALID, uid, sent)
    else SelectFrom(radio, crc, sent, uid, validBits, buf, 1)
  }
}

/** The reader's own loops, over a nine-byte frame buffer updated in place. */
module Mfrc522s {
  import opened Options
  import opened Anticollision

  class UidRecord {
    var size: nat
    var uidByte: seq<bv8>
    var sak: bv8

    ghost function Value(): Uid
      reads this
    {
      Uid(size, uidByte, sak)
    }

    constructor (size: nat, uidByte: seq<bv8>, sak: bv8)
      ensures Value() == Uid(size, uidByte, sak)
    {
      this.size := size;
      this.uidByte := uidByte;
      this.sak := sak;
    }
  }

  class Mfrc522 {
    const radio: Radio
    const crc: Crc
    // every frame transmitted so far
    var sent: seq<Frame>

    constructor (radio: Radio, crc: Crc)
      ensures this.radio == radio && this.crc == crc && sent == []
    {
      this.radio := radio;
      this.crc := crc;
      sent := [];
    }

    method CalculateCrc(data: seq<bv8>) returns (result: Option<(bv8, bv8)>)
      ensures result == crc(sent, data)
    {
      result := crc(sent, data);
    }

    /** Only bit positions rxAlign..7 of the first byte are updated. */
    method ReadRegister(fifo: seq<bv8>, beyond: bv8, values: array<bv8>, at: nat, rxAlign: Bits3)
      requires at + 2 <= values.Length && at + |fifo| <= values.Length
      modifies values
      ensures values[..] == ReadFifo(old(values[..]), at, fifo, beyond, rxAlign)
    {
      ghost var before := values[..];
      if fifo == [] {
        return;
      }
      var count := |fifo| - 1;
      var index := 0;
      if rxAlign != 0 {
        values[at] := Merge(values[at], fifo[0], rxAlign);
        index := 1;
      }
      while index < count
        invariant index <= count || (index == 1 && count == 0 && rxAlign != 0)
        invariant (if rxAlign != 0 then 1 else 0) <= index
        invariant forall i :: 0 <= i < values.Length ==>
          values[i] == if at <= i < at + index then ReadByte(before, at, fifo, beyond, rxAlign, i) else before[i]
      {
        values[at + index] := fifo[index];
        index := index + 1;
      }
      // the last byte, or the one behind it when the only byte was aligned
      values[at + index] := if index < |fifo| then fifo[index] else beyond;
    }

    method TransceiveData(buffer: array<bv8>, sendLen: nat, at: nat, room: nat, txLastBits: Bits3, rxAlign: Bits3)
      returns (code: Code, backLen: nat, validBits: Bits3, ghost e: Exchange)
      requires sendLen <= buffer.Length && at + 2 <= buffer.Length && at + room <= buffer.Length
      modifies this`sent, buffer
      ensures sent == old(sent) + [Frame(old(buffer[..])[..sendLen], txLastBits, rxAlign)]
      ensures e == Exchanged(radio(sent), old(buffer[..]), at, room, txLastBits, rxAlign)
      ensures e == Exchange(code, buffer[..], backLen, validBits)
    {
      sent := sent + [Frame(buffer[..][..sendLen], txLastBits, rxAlign)];
      var answer := radio(sent);
      backLen := room;
      validBits := txLastBits;
      e := Exchanged(answer, buffer[..], at, room, txLastBits, rxAlign);
      match answer {
        case Silence =>
          code := TIMEOUT;
        case Garbled =>
          code := ERROR;
        case Received(fifo, last, beyond, collision, _, _) =>
          if |fifo| > room {
            code := NO_ROOM;
          } else {
            backLen := |fifo|;
            ReadRegister(fifo, beyond, buffer, at, rxAlign);
            validBits := last;
            code := if collision then COLLISION else OK;
          }
      }
    }

    /** The frame with all bits of a level known: check byte and checksum. */
    method FillFrame(buffer: array<bv8>)
      requires buffer.Length == 9
      modifies buffer
      ensures buffer[..] == SelectBuffer(old(buffer[..]))
    {
      // seven whole bytes
      buffer[1] := 0x70;
      buffer[6] := buffer[2] ^ buffer[3] ^ buffer[4] ^ buffer[5];
    }

    method CompleteFrame(buffer: array<bv8>) returns (ok: bool)
      requires buffer.Length == 9
      modifies buffer
      ensures ok == crc(sent, SelectBuffer(old(buffer[..]))[..7]).Some?
      ensures !ok ==> buffer[..] == SelectBuffer(old(buffer[..]))
      ensures ok ==>
        var check := crc(sent, SelectBuffer(old(buffer[..]))[..7]).value;
        buffer[..] == SelectBuffer(old(buffer[..]))[7 := check.0][8 := check.1]
    {
      FillFrame(buffer);
      ghost var filled := buffer[..];
      var check := CalculateCrc(buffer[..7]);
      assert buffer[..7] == filled[..7];
      ok := check.Some?;
      if ok {
        buffer[7] := check.value.0;
        buffer[8] := check.value.1;
        assert buffer[..] == filled[7 := check.value.0][8 := check.value.1];
      }
    }

    method TransmitSelect(buffer: array<bv8>) returns (code: Code, responseLength: nat, txLastBits: Bits3)
      requires buffer.Length == 9
      modifies this`sent, buffer
      ensures Outcome(code, sent, buffer[..], responseLength, txLastBits)
              == Selection(radio, crc, old(sent), old(buffer[..]))
    {
      var ok := CompleteFrame(buffer);
      if !ok {
        return TIMEOUT, 0, 0;
      }
      assert buffer[..][..9] == buffer[..];
      ghost var e;
      code, responseLength, txLastBits, e := TransceiveData(buffer, 9, 6, 3, 0, 0);
      if code == COLLISION && !radio(sent).noPosition {
        // all 32 bits were known: no progress
        code := INTERNAL_ERROR;
      }
    }

    method SetNvb(buffer: array<bv8>, index: nat, txLastBits: Bits3)
      requires buffer.Length == 9 && 2 <= index <= 5
      modifies buffer
      ensures buffer[..] == NvbBuffer(old(buffer[..]), 8 * (index - 2) + txLastBits)
    {
      buffer[1] := (Small(index) << 4) + Small(txLastBits);
      assert buffer[..] == old(buffer[..])[1 := Nvb(index, txLastBits)];
    }

    /** Chooses the card with the bit set. */
    method SetBit(buffer: array<bv8>, known: nat)
      requires buffer.Length == 9 && 1 <= known <= 32
      modifies buffer
      ensures buffer[..] == WithBit(old(buffer[..]), known)
    {
      // the bit to modify
      var count := known % 8;
      var checkBit := (known - 1) % 8;
      var index := 1 + known / 8 + if count != 0 then 1 else 0;
      buffer[index] := buffer[index] | Mask(checkBit);
      assert buffer[..] == old(buffer[..])[index := old(buffer[..])[index] | Mask(checkBit)];
    }

    method TransmitBits(buffer: array<bv8>, known: nat)
      returns (code: Code, responseLength: nat, txLastBits: Bits3, ghost e: Exchange)
      requires buffer.Length == 9 && known < 32
      modifies this`sent, buffer
      ensures sent == old(sent) + [KnownFrame(old(buffer[..]), known)]
      ensures e == Exchanged(radio(sent), NvbBuffer(old(buffer[..]), known), 2 + known / 8, 7 - known / 8, known % 8,
                             known % 8)
      ensures e == Exchange(code, buffer[..], responseLength, txLastBits)
    {
      txLastBits := known % 8;
      var count := known / 8;
      var index := 2 + count;
      SetNvb(buffer, index, txLastBits);
      assert 8 * (index - 2) + txLastBits == known;
      var bufferUsed := index + if txLastBits != 0 then 1 else 0;
      code, responseLength, txLastBits, e := TransceiveData(buffer, bufferUsed, index, 9 - index, txLastBits,
                                                            txLastBits);
    }

    /** An anticollision frame; after a collision the next one is longer. */
    method TransmitKnown(buffer: array<bv8>, known: nat)
      returns (code: Code, responseLength: nat, txLastBits: Bits3, more: nat, ghost r: Round)
      requires buffer.Length == 9 && known < 32
      modifies this`sent, buffer
      ensures r == Ask(radio, old(sent), old(buffer[..]), known)
      ensures r == if code == OK then Going(sent, buffer[..], more)
                   else Stopped(Outcome(code, sent, buffer[..], responseLength, txLastBits))
    {
      more := known;
      r := Ask(radio, sent, buffer[..], known);
      ghost var e;
      code, responseLength, txLastBits, e := TransmitBits(buffer, known);
      if code == COLLISION {
        if radio(sent).noPosition {
          return;
        }
        var collisionPos: nat := radio(sent).position;
        if collisionPos == 0 {
          collisionPos := 32;
        }
        if collisionPos <= known {
          code := INTERNAL_ERROR;
          return;
        }
        more := collisionPos;
        SetBit(buffer, more);
        code := OK;
      } else if code == OK {
        more := 32;
      }
    }

    /** The anticollision loop of one cascade level. */
    method RunLevel(buffer: array<bv8>, known: nat) returns (code: Code, responseLength: nat, txLastBits: Bits3)
      requires buffer.Length == 9
      modifies this`sent, buffer
      ensures Outcome(code, sent, buffer[..], responseLength, txLastBits)
              == Level(radio, crc, old(sent), old(buffer[..]), known)
    {
      ghost var goal := Level(radio, crc, sent, buffer[..], known);
      var currentLevelKnownBits: int := known;
      while currentLevelKnownBits < 32
        invariant 0 <= currentLevelKnownBits
        invariant goal == Level(radio, crc, sent, buffer[..], currentLevelKnownBits)
        decreases 32 - currentLevelKnownBits
      {
        var more;
        ghost var r;
        code, responseLength, txLastBits, more, r := TransmitKnown(buffer, currentLevelKnownBits);
        if code != OK {
          return;
        }
        currentLevelKnownBits := more;
      }
      code, responseLength, txLastBits := TransmitSelect(buffer);
    }

    method CopyKnown(uid: UidRecord, uidIndex: nat, buffer: array<bv8>, index: nat, bytesToCopy: nat)
      requires index + bytesToCopy <= buffer.Length && uidIndex + bytesToCopy <= |uid.uidByte|
      modifies buffer
      ensures forall i :: 0 <= i < buffer.Length ==>
        buffer[i] == if index <= i < index + bytesToCopy then uid.uidByte[uidIndex + i - index] else old(buffer[i])
    {
      var count := 0;
      while count < bytesToCopy
        invariant 0 <= count <= bytesToCopy
        invariant forall i :: 0 <= i < buffer.Length ==>
          buffer[i] == if index <= i < index + count then uid.uidByte[uidIndex + i - index] else old(buffer[i])
      {
        buffer[index + count] := uid.uidByte[uidIndex + count];
        count := count + 1;
      }
    }

    /** The level's command byte, tag and known bytes, copied into the buffer. */
    method Prepare(uid: UidRecord, validBits: nat, buffer: array<bv8>, cascadeLevel: nat) returns (known: nat)
      requires buffer.Length == 9 && |uid.uidByte| == 10 && validBits <= 80 && 1 <= cascadeLevel <= 3
      modifies buffer
      ensures buffer[..] == Prepared(uid.Value(), validBits, old(buffer[..]), cascadeLevel)
      ensures known == Known(uid.Value(), validBits, cascadeLevel)
    {
      ghost var before := buffer[..];
      ghost var value := uid.Value();
      var uidIndex: nat, useCascadeTag;
      match cascadeLevel {
        case 1 =>
          buffer[0] := 0x93;
          uidIndex := 0;
          useCascadeTag := validBits != 0 && uid.size > 4;
        case 2 =>
          buffer[0] := 0x95;
          uidIndex := 3;
          useCascadeTag := validBits != 0 && uid.size > 7;
        case 3 =>
          buffer[0] := 0x97;
          uidIndex := 6;
          useCascadeTag := false;
      }
      var bits := validBits - 8 * uidIndex;
      if bits < 0 {
        bits := 0;
      }
      var index := 2;
      if useCascadeTag {
        buffer[index] := CT;
        index := index + 1;
      }
      var bytesToCopy := bits / 8 + if bits % 8 != 0 then 1 else 0;
      if bytesToCopy != 0 {
        var maxBytes := if useCascadeTag then 3 else 4;
        if bytesToCopy > maxBytes {
          bytesToCopy := maxBytes;
        }
        assert bytesToCopy == BytesToCopy(value, validBits, cascadeLevel);
        CopyKnown(uid, uidIndex, buffer, index, bytesToCopy);
      }
      known := bits + if useCascadeTag then 8 else 0;
    }

    /** The bytes found, copied behind those of the levels before. */
    method CopyUid(uid: UidRecord, buffer: array<bv8>, cascadeLevel: nat)
      requires buffer.Length == 9 && |uid.uidByte| == 10 && 1 <= cascadeLevel <= 3
      modifies uid
      ensures uid.Value() == old(uid.Value()).(uidByte := Overwrite(old(uid.uidByte), First(cascadeLevel),
                                                                    Found(buffer[..])))
    {
      ghost var before := uid.uidByte;
      var uidIndex := 3 * (cascadeLevel - 1);
      var index := if buffer[2] == CT then 3 else 2;
      var bytesToCopy := if buffer[2] == CT then 3 else 4;
      ghost var found := Found(buffer[..]);
      var count := 0;
      while count < bytesToCopy
        invariant 0 <= count <= bytesToCopy && index == (if buffer[2] == CT then 3 else 2) + count
        invariant uid.size == old(uid.size) && uid.sak == old(uid.sak)
        invariant uid.uidByte == Overwrite(before, uidIndex, found[..count])
      {
        uid.uidByte := uid.uidByte[uidIndex + count := buffer[index]];
        index := index + 1;
        count := count + 1;
      }
      assert found[..count] == found;
    }

    /** The acknowledgement is one byte and its check. */
    method CheckSak(uid: UidRecord, buffer: array<bv8>, responseLength: nat, txLastBits: Bits3, cascadeLevel: nat)
      returns (code: Code, uidComplete: bool, ghost p: Progress)
      requires buffer.Length == 9 && |uid.uidByte| == 10 && 1 <= cascadeLevel <= 3
      modifies uid, buffer
      ensures p == Acknowledged(crc, Outcome(OK, sent, old(buffer[..]), responseLength, txLastBits), old(uid.Value()),
                                cascadeLevel)
      ensures p == if code == OK && !uidComplete then Deeper(sent, uid.Value(), buffer[..])
                   else Finished(Selected(code, uid.Value(), sent))
      ensures |uid.uidByte| == 10
    {
      p := Acknowledged(crc, Outcome(OK, sent, buffer[..], responseLength, txLastBits), uid.Value(), cascadeLevel);
      uidComplete := false;
      CopyUid(uid, buffer, cascadeLevel);
      if responseLength != 3 || txLastBits != 0 {
        return ERROR, false, p;
      }
      var check := CalculateCrc([buffer[6]]);
      if check.None? {
        return TIMEOUT, false, p;
      }
      ghost var found := buffer[..];
      buffer[2] := check.value.0;
      buffer[3] := check.value.1;
      assert buffer[..] == found[2 := check.value.0][3 := check.value.1];
      if buffer[2] != buffer[7] || buffer[3] != buffer[8] {
        return CRC_WRONG, false, p;
      }
      code := OK;
      if buffer[6] & 0x04 == 0 {
        uidComplete := true;
        uid.sak := buffer[6];
        // the size that goes with the level
        uid.size := 3 * cascadeLevel + 1;
      }
    }

    method RunCascadeLevel(uid: UidRecord, validBits: nat, buffer: array<bv8>, cascadeLevel: nat)
      returns (code: Code, uidComplete: bool, ghost p: Progress)
      requires buffer.Length == 9 && |uid.uidByte| == 10 && validBits <= 80 && 1 <= cascadeLevel <= 3
      modifies this`sent, uid, buffer
      ensures p == Acknowledged(crc, LevelOutcome(radio, crc, old(sent), old(uid.Value()), validBits, old(buffer[..]),
                                                  cascadeLevel),
                                old(uid.Value()), cascadeLevel)
      ensures p == if code == OK && !uidComplete then Deeper(sent, uid.Value(), buffer[..])
                   else Finished(Selected(code, uid.Value(), sent))
      ensures |uid.uidByte| == 10
    {
      ghost var o := LevelOutcome(radio, crc, sent, uid.Value(), validBits, buffer[..], cascadeLevel);
      p := Acknowledged(crc, o, uid.Value(), cascadeLevel);
      uidComplete := false;
      var known := Prepare(uid, validBits, buffer, cascadeLevel);
      var responseLength, txLastBits;
      code, responseLength, txLastBits := RunLevel(buffer, known);
      assert o == Outcome(code, sent, buffer[..], responseLength, txLastBits);
      if code == OK {
        code, uidComplete, p := CheckSak(uid, buffer, responseLength, txLastBits, cascadeLevel);
      }
    }

    method Select(uid: UidRecord, validBits: nat, buffer: array<bv8>) returns (code: Code)
      requires buffer.Length == 9 && |uid.uidByte| == 10
      modifies this`sent, uid, buffer
      ensures Selected(code, uid.Value(), sent)
              == PiccSelect(radio, crc, old(sent), old(uid.Value()), validBits, old(buffer[..]))
    {
      // sanity checks
      if validBits > 80 {
        return INVALID;
      }
      ghost var goal := SelectFrom(radio, crc, sent, uid.Value(), validBits, buffer[..], 1);
      var cascadeLevel := 1;
      var uidComplete := false;
      code := OK;
      while !uidComplete
        invariant |uid.uidByte| == 10 && 1 <= cascadeLevel <= 4 && code == OK
        invariant goal == if uidComplete then Selected(OK, uid.Value(), sent)
                          else SelectFrom(radio, crc, sent, uid.Value(), validBits, buffer[..], cascadeLevel)
        decreases !uidComplete, 4 - cascadeLevel
      {
        if cascadeLevel == 4 {
          return INTERNAL_ERROR;
        }
        ghost var p;
        code, uidComplete, p := RunCascadeLevel(uid, validBits, buffer, cascadeLevel);
        if code != OK {
          return;
        }
        if !uidComplete {
          cascadeLevel := cascadeLevel + 1;
        }
      }
    }
  }
}

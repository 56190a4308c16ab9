/** PICC_Select is bounded whatever the radio reports, and over a noiseless
    field it selects the one card that wins every level. */
module AnticollisionTheorems {
  import opened Bytes
  import opened Options
  import opened Anticollision
  import opened AnticollisionField

  // For any behaviour of the radio.

  /** How much of the level a frame says: all of it when it selects. */
  function Says(f: Frame): int {
    if |f.data| == 9 then 32 else KnownBits(f)
  }

  /** Frames of one level, each saying more than the one before. */
  ghost predicate LevelRun(run: seq<Frame>, sel: bv8, known: nat) {
    && (forall f <- run :: |f.data| >= 2 && f.data[0] == sel && known <= Says(f) <= 32)
    && (forall i, j | 0 <= i < j < |run| :: Says(run[i]) < Says(run[j]))
  }

  lemma {:induction false} RunIsShort(run: seq<Frame>, sel: bv8, known: nat)
    requires LevelRun(run, sel, known) && known <= 32
    ensures |run| <= 33 - known
  {
    if run != [] {
      var less := run[1..];
      if less != [] {
        assert Says(run[0]) < Says(run[1]);
        forall f | f in less ensures Says(run[0]) + 1 <= Says(f) {
          var i :| 0 <= i < |less| && less[i] == f;
          assert Says(run[0]) < Says(run[i + 1]);
        }
        assert run[0] in run && run[1] in run;
        RunIsShort(less, sel, Says(run[0]) + 1);
      }
    }
  }

  lemma RunGrows(f: Frame, rest: seq<Frame>, sel: bv8, known: nat, more: nat)
    requires |f.data| >= 2 && f.data[0] == sel && known <= Says(f) < more <= 32
    requires LevelRun(rest, sel, more)
    ensures LevelRun([f] + rest, sel, known)
  {
    var run := [f] + rest;
    forall g | g in run ensures |g.data| >= 2 && g.data[0] == sel && known <= Says(g) <= 32 {
      assert g == f || g in rest;
    }
    forall i, j | 0 <= i < j < |run| ensures Says(run[i]) < Says(run[j]) {
      assert run[j] == rest[j - 1] && rest[j - 1] in rest;
      if i > 0 { assert run[i] == rest[i - 1]; }
    }
  }

  lemma AskSends(radio: Radio, sent: seq<Frame>, buf: seq<bv8>, known: nat)
    requires |buf| == 9 && known < 32
    ensures var f := KnownFrame(buf, known);
            |f.data| >= 2 && f.data[0] == buf[0] && Says(f) == known
    ensures match Ask(radio, sent, buf, known)
            case Stopped(outcome) => outcome.sent == sent + [KnownFrame(buf, known)]
            case Going(on, more, bits) => on == sent + [KnownFrame(buf, known)] && more[0] == buf[0]
  {
  }

  lemma {:induction false} LevelIsBounded(radio: Radio, crc: Crc, sent: seq<Frame>, buf: seq<bv8>, known: nat)
    returns (run: seq<Frame>)
    requires |buf| == 9
    ensures Level(radio, crc, sent, buf, known).sent == sent + run
    ensures LevelRun(run, buf[0], if known < 32 then known else 32)
    decreases if known < 32 then 32 - known else 0
  {
    if known >= 32 {
      run := SelectionRun(radio, crc, sent, buf);
    } else {
      var f := KnownFrame(buf, known);
      AskSends(radio, sent, buf, known);
      match Ask(radio, sent, buf, known) {
        case Stopped(outcome) =>
          RunGrows(f, [], buf[0], known, 32);
          run := [f] + [];
          assert [f] + [] == [f];
        case Going(on, more, bits) =>
          var rest := LevelIsBounded(radio, crc, on, more, bits);
          RunGrows(f, rest, buf[0], known, bits);
          run := [f] + rest;
          Associates(sent, [f], rest);
      }
    }
  }

  lemma SelectionRun(radio: Radio, crc: Crc, sent: seq<Frame>, buf: seq<bv8>) returns (run: seq<Frame>)
    requires |buf| == 9
    ensures Selection(radio, crc, sent, buf).sent == sent + run
    ensures LevelRun(run, buf[0], 32)
  {
    var b := SelectBuffer(buf);
    match crc(sent, b[..7]) {
      case None =>
        run := [];
        assert sent + run == sent;
      case Some(check) =>
        run := [Frame(b[7 := check.0][8 := check.1], 0, 0)];
    }
  }

  lemma {:induction false} LevelsAreBounded(radio: Radio, crc: Crc, sent: seq<Frame>, uid: Uid, validBits: nat,
                                            buf: seq<bv8>, level: nat)
    returns (runs: seq<seq<Frame>>)
    requires |buf| == 9 && |uid.uidByte| == 10 && validBits <= 80 && 1 <= level <= 4
    ensures |runs| == 4 - level
    ensures SelectFrom(radio, crc, sent, uid, validBits, buf, level).sent == sent + Joined(runs)
    ensures forall i | 0 <= i < |runs| :: LevelRun(runs[i], Sel(level + i), 0)
    decreases 4 - level
  {
    hide LevelOutcome, Acknowledged, LevelRun;
    if level == 4 {
      runs := [];
      assert sent + [] == sent;
    } else {
      var run := FirstRun(radio, crc, sent, uid, validBits, buf, level);
      var rest: seq<seq<Frame>>;
      match Acknowledged(crc, LevelOutcome(radio, crc, sent, uid, validBits, buf, level), uid, level) {
        case Finished(selected) =>
          rest := seq(3 - level, _ => []);
          NothingJoined(rest);
          NothingRun();
        case Deeper(on, more, left) =>
          rest := LevelsAreBounded(radio, crc, on, more, validBits, left, level + 1);
      }
      runs := [run] + rest;
      assert runs[1..] == rest;
      Associates(sent, run, Joined(rest));
      assert forall i | 0 <= i < |rest| :: LevelRun(rest[i], Sel(level + 1 + i), 0);
    }
  }

  lemma NothingRun()
    ensures forall sel: bv8 :: LevelRun([], sel, 0)
  {
  }

  lemma FirstRun(radio: Radio, crc: Crc, sent: seq<Frame>, uid: Uid, validBits: nat, buf: seq<bv8>, level: nat)
    returns (run: seq<Frame>)
    requires |buf| == 9 && |uid.uidByte| == 10 && validBits <= 80 && 1 <= level <= 3
    ensures LevelOutcome(radio, crc, sent, uid, validBits, buf, level).sent == sent + run
    ensures LevelRun(run, Sel(level), 0)
  {
    run := LevelIsBounded(radio, crc, sent, Prepared(uid, validBits, buf, level), Known(uid, validBits, level));
  }

  function Joined(runs: seq<seq<Frame>>): seq<Frame> {
    if runs == [] then [] else runs[0] + Joined(runs[1..])
  }

  lemma NothingJoined(runs: seq<seq<Frame>>)
    requires forall i | 0 <= i < |runs| :: runs[i] == []
    ensures Joined(runs) == []
  {
    if runs != [] {
      assert runs[0] == [];
      NothingJoined(runs[1..]);
    }
  }

  /** At most three levels, each of at most 32 anticollision frames and one
      SELECT, and each frame says more than the one before it. */
  lemma SelectIsBounded(radio: Radio, crc: Crc, sent: seq<Frame>, uid: Uid, validBits: nat, buf: seq<bv8>)
    returns (a: seq<Frame>, b: seq<Frame>, c: seq<Frame>)
    requires |buf| == 9 && |uid.uidByte| == 10
    ensures PiccSelect(radio, crc, sent, uid, validBits, buf).sent == sent + a + b + c
    ensures LevelRun(a, 0x93, 0) && LevelRun(b, 0x95, 0) && LevelRun(c, 0x97, 0)
    ensures |a| <= 33 && |b| <= 33 && |c| <= 33
  {
    hide LevelRun, SelectFrom;
    if validBits > 80 {
      NothingRun();
      a, b, c := [], [], [];
      assert sent + a + b + c == sent;
    } else {
      var runs := LevelsAreBounded(radio, crc, sent, uid, validBits, buf, 1);
      a, b, c := runs[0], runs[1], runs[2];
      assert runs[1..][0] == b && runs[1..][1..] == [c];
      assert Joined([c]) == c;
      assert sent + Joined(runs) == sent + a + b + c;
      RunIsShort(a, 0x93, 0);
      RunIsShort(b, 0x95, 0);
      RunIsShort(c, 0x97, 0);
    }
  }
}

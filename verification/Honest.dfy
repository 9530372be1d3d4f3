/** A receiver that hears only messages its sender emits for one packet, with
    any loss, duplication and reordering. */
module Honest {
  import opened Bits
  import opened FragmentCodec
  import opened Tiles
  import opened Session
  import opened SessionInvariant
  import AckCodec
  import Rcs

  /** A packet and the rule ID it is sent under. */
  datatype Job = Job(packet: seq<byte>, rule: byte)

  predicate ValidJob(j: Job) {
    ValidRule(j.rule) && ValidPacket(j.packet)
  }

  function Count(j: Job): (n: nat)
    requires ValidJob(j)
    ensures 1 <= n <= MAX_TILES
  {
    TileCount(|j.packet|)
  }

  function LastWindow(j: Job): (w: nat)
    requires ValidJob(j)
    ensures w <= 1
    ensures w * WINDOW <= Count(j) - 1 <= w * WINDOW + WINDOW - 1
  {
    FinalWindow(Count(j))
  }

  function LastOf(j: Job): (l: Last)
    requires ValidJob(j)
  {
    Last(LastWindow(j), Rcs.Check(j.packet), Tile(j.packet, Count(j) - 1))
  }

  /** A message some run of the sender can emit for the job. */
  ghost predicate Emitted(j: Job, m: seq<byte>)
    requires ValidJob(j)
  {
    || (exists i :: 0 <= i < Count(j) && m == Frame(j.packet, j.rule, i))
    || m == ControlWire(AckRequest, j.rule, LastWindow(j))
    || m == ControlWire(SenderAbort, j.rule, 0)
  }

  /** A negative ACK the sender can use: it names only tiles of the packet and
      leaves at least one of them missing. */
  ghost predicate Useful(j: Job, a: AckCodec.Ack)
    requires ValidJob(j)
  {
    && a.rule == j.rule && !a.complete && a.window <= LastWindow(j)
    && a.bitmap <= Assigned(Count(j), a.window)
    && exists b :: b in Assigned(Count(j), a.window) && b !in a.bitmap
  }

  ghost predicate TilesOf(j: Job, tiles: map<nat, seq<byte>>)
    requires ValidJob(j)
  {
    forall o :: o in tiles ==> o < Count(j) - 1 && tiles[o] == Tile(j.packet, o)
  }

  /** All a session holds comes from the job, and its answer is useful. */
  ghost predicate Faithful(j: Job, s: Session)
    requires ValidJob(j)
  {
    && TilesOf(j, s.tiles)
    && (s.last.Last? ==> s.last == LastOf(j))
    && (s.active || s.delivered || s.pending != Idle ==> s.rule == j.rule)
    && (s.pending == AckDue ==> Useful(j, s.ack))
  }

  // ------------------------------------------------------ useful answers

  lemma AssignedBit(j: Job, i: nat)
    requires ValidJob(j) && i < Count(j)
    ensures TileBit(Count(j), i) in Assigned(Count(j), i / WINDOW)
  {
  }

  lemma MarkedIsAssigned(j: Job, s: Session, w: nat)
    requires ValidJob(j) && Faithful(j, s) && w <= 1
    ensures Marked(s.tiles, w) <= Assigned(Count(j), w)
    ensures w == LastWindow(j) ==> 0 !in Marked(s.tiles, w) && 0 in Assigned(Count(j), w)
  {
    forall b | b in Marked(s.tiles, w)
      ensures b in Assigned(Count(j), w)
    {
      AssignedBit(j, w * WINDOW + WINDOW - 1 - b);
    }
    AssignedBit(j, Count(j) - 1);
  }

  /** Window 0 of a two-window packet is not complete. */
  lemma UsefulWindow0(j: Job, s: Session)
    requires ValidJob(j) && Faithful(j, s)
    requires LastWindow(j) == 1 && Marked(s.tiles, 0) != AckCodec.MASK
    ensures Useful(j, AckCodec.Ack(j.rule, 0, false, Marked(s.tiles, 0)))
  {
    MarkedIsAssigned(j, s, 0);
    var b :| b in AckCodec.MASK && b !in Marked(s.tiles, 0);
    AssignedBit(j, WINDOW - 1 - b);
    assert TileBit(Count(j), WINDOW - 1 - b) == b;
  }

  /** A tile i before the last one that has not been accepted. */
  lemma UsefulTile(j: Job, s: Session, i: nat, bits: set<nat>)
    requires ValidJob(j) && Faithful(j, s) && i < Count(j) - 1 && i !in s.tiles
    requires i / WINDOW == LastWindow(j)
    requires bits <= Marked(s.tiles, i / WINDOW) + {0}
    ensures Useful(j, AckCodec.Ack(j.rule, i / WINDOW, false, bits))
  {
    MarkedIsAssigned(j, s, i / WINDOW);
    AssignedBit(j, i);
    var b := TileBit(Count(j), i);
    assert b != 0 && i / WINDOW * WINDOW + WINDOW - 1 - b == i;
    assert b !in bits;
  }

  /** Without the All-1 tile its bit is missing, or window 0 is incomplete. */
  lemma UsefulBeforeLast(j: Job, s: Session)
    requires ValidJob(j) && Faithful(j, s)
    ensures var w := if Marked(s.tiles, 0) == AckCodec.MASK then 1 else 0;
            Useful(j, AckCodec.Ack(j.rule, w, false, Marked(s.tiles, w)))
  {
    if Marked(s.tiles, 0) == AckCodec.MASK {
      assert 0 in Marked(s.tiles, 0);
      assert WINDOW - 1 in s.tiles;
      MarkedIsAssigned(j, s, 1);
    } else if LastWindow(j) == 1 {
      UsefulWindow0(j, s);
    } else {
      MarkedIsAssigned(j, s, 0);
    }
  }

  // ------------------------------------------------------------ finalize

  lemma {:induction false} AssembleIsPrefix(j: Job, s: Session, n: nat)
    requires ValidJob(j) && Faithful(j, s) && HasFirst(s.tiles, n) && n <= Count(j) - 1
    ensures Assemble(s.tiles, n) == j.packet[..n * TILE]
  {
    if n > 0 {
      AssembleIsPrefix(j, s, n - 1);
      assert j.packet[..n * TILE] == j.packet[..(n - 1) * TILE] + j.packet[(n - 1) * TILE..n * TILE];
    }
  }

  lemma PrefixLength(j: Job, s: Session, n: nat)
    requires ValidJob(j) && Faithful(j, s) && HasFirst(s.tiles, n)
    ensures n <= Count(j) - 1
  {
    if n > 0 {
      assert n - 1 in s.tiles;
    }
  }

  lemma WholePacket(j: Job, s: Session)
    requires ValidJob(j) && Faithful(j, s) && HasFirst(s.tiles, Count(j) - 1) && s.last.Last?
    ensures Assemble(s.tiles, Count(j) - 1) + s.last.tile == j.packet
  {
    var n := Count(j) - 1;
    AssembleIsPrefix(j, s, n);
    assert j.packet == j.packet[..n * TILE] + j.packet[n * TILE..];
  }

  lemma LastWindowOf(j: Job, s: Session)
    requires ValidJob(j) && Faithful(j, s) && s.last.Last?
    ensures s.last.window == LastWindow(j) && s.last.rcs == Rcs.Check(j.packet)
  {
  }

  lemma NegativeFaithful(j: Job, s: Session, window: nat, bitmap: set<nat>, report: Report)
    requires ValidJob(j) && Faithful(j, s) && s.rule == j.rule
    requires Useful(j, AckCodec.Ack(j.rule, window, false, bitmap))
    ensures Faithful(j, Negative(s, window, bitmap, report).session)
  {
    hide Useful;
    hide TilesOf;
    hide LastOf;
  }

  lemma CheckPacketFaithful(j: Job, s: Session, n: nat, k: nat)
    requires ValidJob(j) && Faithful(j, s) && s.rule == j.rule && s.last.Last?
    requires HasFirst(s.tiles, n) && n == s.last.window * WINDOW + k && n !in s.tiles
    ensures Faithful(j, CheckPacket(s, n, k).session)
  {
    hide Useful;
    hide TilesOf;
    hide LastOf;
    hide Negative;
    hide Marked;
    hide Assemble;
    hide Rcs.Check;
    PrefixLength(j, s, n);
    LastWindowOf(j, s);
    if n == Count(j) - 1 {
      WholePacket(j, s);
    } else {
      var bits := Marked(s.tiles, s.last.window);
      assert n / WINDOW == s.last.window;
      var report := if k > 1 then bits else bits + {0};
      UsefulTile(j, s, n, report);
      NegativeFaithful(j, s, s.last.window, report, QUIET.(checked := true));
    }
  }

  lemma FinalizeFaithful(j: Job, s: Session)
    requires ValidJob(j) && Faithful(j, s) && s.rule == j.rule && s.last.Last? && Valid(s)
    ensures Faithful(j, Finalize(s).session)
  {
    hide Useful;
    hide TilesOf;
    hide LastOf;
    hide CheckPacket, Negative, Finalize, Marked, Span;
    FinalizeForms(s);
    LastWindowOf(j, s);
    var w := s.last.window;
    if w == 1 && Marked(s.tiles, 0) != AckCodec.MASK {
      UsefulWindow0(j, s);
      NegativeFaithful(j, s, 0, Marked(s.tiles, 0), QUIET);
    } else {
      var bits := Marked(s.tiles, w);
      var k := Span(bits, WINDOW);
      if exists b :: WINDOW - k <= b < WINDOW && b !in bits {
        var b :| WINDOW - k <= b < WINDOW && b !in bits;
        GapIsUseful(j, s, b);
        NegativeFaithful(j, s, w, bits + {0}, QUIET);
      } else {
        ContiguousHolds(s.tiles, w, k);
        PrefixExact(s);
        var t := s.(staging := (w * WINDOW + k) * TILE);
        CheckPacketFaithful(j, t, w * WINDOW + k, k);
      }
    }
  }

  lemma GapIsUseful(j: Job, s: Session, b: nat)
    requires ValidJob(j) && Faithful(j, s) && s.last.Last?
    requires var bits := Marked(s.tiles, s.last.window);
             WINDOW - Span(bits, WINDOW) <= b < WINDOW && b !in bits
    ensures Useful(j, AckCodec.Ack(j.rule, s.last.window, false,
                                   Marked(s.tiles, s.last.window) + {0}))
  {
    var w := s.last.window;
    var bits := Marked(s.tiles, w);
    var k := Span(bits, WINDOW);
    assert WINDOW - k in bits;
    assert w * WINDOW + k - 1 in s.tiles;
    UsefulTile(j, s, w * WINDOW + WINDOW - 1 - b, bits + {0});
  }

  // --------------------------------------------------------------- input

  lemma AbortFaithful(j: Job, s: Session)
    requires ValidJob(j) && Faithful(j, s)
    ensures Faithful(j, QueueAbort(s, j.rule))
  {
    hide TilesOf;
    hide LastOf;
  }

  lemma LastFragment(j: Job)
    requires ValidJob(j)
    ensures var f := FragmentOf(j.packet, j.rule, Count(j) - 1);
            && f.fcn == ALL_1 && f.rule == j.rule && f.window <= 1
            && LastOf(j) == Last(f.window, f.rcs, f.tile)
  {
  }

  lemma All1Faithful(j: Job, s: Session)
    requires ValidJob(j) && Faithful(j, s) && Open(s) && s.pending == Idle && s.rule == j.rule
    ensures Faithful(j, All1(s, FragmentOf(j.packet, j.rule, Count(j) - 1)).session)
  {
    hide Finalize;
    hide Useful;
    hide TilesOf;
    hide Marked;
    hide Valid;
    LastInRange(s);
    var f := FragmentOf(j.packet, j.rule, Count(j) - 1);
    LastFragment(j);
    hide FragmentOf;
    hide LastOf;
    AbortFaithful(j, s);
    if s.last.Last? {
      FinalizeFaithful(j, s);
    } else if f.window * WINDOW + WINDOW - 1 !in s.tiles && !(f.window == 0 && Marked(s.tiles, 1) != {})
              && |f.tile| + TILE * |s.tiles| <= s.limit {
      var t := s.(last := Last(f.window, f.rcs, f.tile), staging := s.limit - |f.tile|);
      StagedValid(s, f);
      FinalizeFaithful(j, t);
    }
  }

  lemma StoreFaithful(j: Job, s: Session, i: nat)
    requires ValidJob(j) && Faithful(j, s) && s.rule == j.rule && i < Count(j) - 1
    ensures Faithful(j, Store(s, FragmentOf(j.packet, j.rule, i), i).session)
  {
    hide Rcs.Check;
  }

  lemma RegularFaithful(j: Job, s: Session, i: nat)
    requires ValidJob(j) && Faithful(j, s) && s.rule == j.rule && i < Count(j) - 1
    ensures FragmentOf(j.packet, j.rule, i).fcn <= ALL_1 - 1
    ensures Faithful(j, Regular(s, FragmentOf(j.packet, j.rule, i)).session)
  {
    hide Store;
    hide TilesOf;
    hide LastOf;
    hide Useful;
    var f := FragmentOf(j.packet, j.rule, i);
    assert f.window * WINDOW + WINDOW - 1 - f.fcn == i;
    AbortFaithful(j, s);
    StoreFaithful(j, s, i);
    if s.last.Last? && |s.last.tile| <= s.limit {
      StoreFaithful(j, s.(staging := s.limit - |s.last.tile|), i);
    }
  }

  lemma RepeatedFaithful(j: Job, s: Session, m: seq<byte>)
    requires ValidJob(j) && Faithful(j, s) && Open(s) && s.rule == j.rule
    requires |m| >= 2 && m[0] == j.rule
    ensures Faithful(j, Repeated(s, m).session)
  {
    hide Finalize;
    hide TilesOf;
    hide LastOf;
    hide Useful;
    hide Decode;
    AbortFaithful(j, s);
    if s.last.Last? {
      FinalizeFaithful(j, s);
    }
  }

  lemma AckRequestedFaithful(j: Job, s: Session)
    requires ValidJob(j) && Faithful(j, s) && Valid(s) && s.pending == Idle
    requires !s.delivered && !s.terminal
    ensures Faithful(j, AckRequested(s, j.rule).session)
  {
    hide Finalize;
    hide Negative;
    hide TilesOf;
    hide LastOf;
    hide Useful;
    hide Marked;
    var t := Activate(s, j.rule);
    if t.last.Last? {
      FinalizeFaithful(j, t);
    } else {
      UsefulBeforeLast(j, t);
      var w := if Marked(t.tiles, 0) == AckCodec.MASK then 1 else 0;
      NegativeFaithful(j, t, w, Marked(t.tiles, w), QUIET);
    }
  }

  /** What an emitted message is to the receiver. */
  lemma EmittedKinds(j: Job, m: seq<byte>)
    requires ValidJob(j) && Emitted(j, m)
    ensures |m| >= 2 && m[0] == j.rule
    ensures IsControl(m, AckRequest) || IsControl(m, SenderAbort) ||
            exists i :: 0 <= i < Count(j) && Decode(m, TILE) == Ok(FragmentOf(j.packet, j.rule, i))
  {
    if i :| 0 <= i < Count(j) && m == Frame(j.packet, j.rule, i) {
      DecodeEncode(FragmentOf(j.packet, j.rule, i), TILE);
    }
  }

  lemma AcceptFaithful(j: Job, s: Session, m: seq<byte>)
    requires ValidJob(j) && Faithful(j, s) && Valid(s) && !s.delivered && !s.terminal
    requires Emitted(j, m) && |m| >= 2 && !IsControl(m, SenderAbort)
    ensures Faithful(j, Accept(s, m, IsControl(m, AckRequest)).session)
  {
    hide Repeated;
    hide AckRequested;
    hide All1;
    hide Regular;
    hide Decode;
    hide Emitted;
    hide TilesOf;
    hide LastOf;
    hide Useful;
    hide FragmentOf;
    hide ControlWire;
    LastInRange(s);
    EmittedKinds(j, m);
    var t := Activate(s, j.rule);
    if s.pending != Idle {
      RepeatedFaithful(j, s, m);
    } else if IsControl(m, AckRequest) {
      AckRequestedFaithful(j, s);
    } else {
      var i :| 0 <= i < Count(j) && Decode(m, TILE) == Ok(FragmentOf(j.packet, j.rule, i));
      if i == Count(j) - 1 {
        LastFragment(j);
        All1Faithful(j, t);
      } else {
        RegularFaithful(j, t, i);
      }
    }
  }

  /** Every message of the job keeps the session faithful to it. */
  lemma InputFaithful(j: Job, s: Session, m: seq<byte>)
    requires ValidJob(j) && Faithful(j, s) && Valid(s) && Emitted(j, m)
    ensures Faithful(j, Input(s, m).session)
  {
    hide Accept;
    hide Decode;
    hide Emitted;
    hide LastOf;
    hide Useful;
    EmittedKinds(j, m);
    InitValid(s.limit);
    if !s.terminal && !IsControl(m, SenderAbort) && !IsControl(m, ReceiverAbort) {
      if s.delivered {
        AcceptFaithful(j, Reset(s), m);
      } else {
        AcceptFaithful(j, s, m);
      }
    }
  }

  /** What a receiver that heard only the job can report: the packet, or a
      proper run of its leading tiles and its last tile with the same RCS. */
  ghost predicate Deliverable(j: Job, packet: seq<byte>)
    requires ValidJob(j)
  {
    || packet == j.packet
    || (&& Rcs.Check(packet) == Rcs.Check(j.packet)
        && exists n :: LastWindow(j) * WINDOW <= n < Count(j) - 1 &&
                       packet == j.packet[..n * TILE] + Tile(j.packet, Count(j) - 1))
  }

  lemma FinishedDeliverable(j: Job, s: Session)
    requires ValidJob(j) && Faithful(j, s) && Finished(s)
    ensures Deliverable(j, s.packet)
  {
    hide Tile;
    hide Rcs.Check;
    var n: nat :| IsPrefix(s, n) && s.packet == Assemble(s.tiles, n) + s.last.tile;
    assert HasFirst(s.tiles, n);
    PrefixLength(j, s, n);
    if n == Count(j) - 1 {
      WholePacket(j, s);
    } else {
      AssembleIsPrefix(j, s, n);
    }
  }
}

/** When a receiver that hears only its own sender gives up: exactly which
    messages make it abort, and a run in which one late tile does. */
module Aborts {
  import opened Bits
  import opened FragmentCodec
  import opened Tiles
  import opened Honest
  import opened Exchange
  import opened Lossless
  import opened Retransmission
  import opened Recovery
  import opened LossyPass
  import AckCodec
  import Rcs
  import S = Sender
  import R = Session
  import Inv = SessionInvariant

  /** The All-1 tile was moved up behind the tiles held, which an RCS mismatch
      does, and tile i is not the next one. */
  ghost predicate Late(s: R.Session, i: nat) {
    s.last.Last? && s.staging != Tail(s) && i !in s.tiles && !R.HasFirst(s.tiles, i)
  }

  // -------------------------------------------------------- one more tile

  lemma LateTile(j: Job, s: R.Session, i: nat)
    requires ValidJob(j) && Idle(j, s) && i < Count(j) - 1 && Late(s, i)
    ensures R.Input(s, Frame(j.packet, j.rule, i)).session == R.QueueAbort(R.Activate(s, j.rule), j.rule)
  {
    hide Frame, R.Input, Rcs.Check;
    FrameAccepted(j, s, i);
    TailRoom(j, s);
    LastWindowOf(j, s);
    var n := s.staging / TILE;
    assert s.staging == n * TILE;
    assert n < i;
  }

  lemma HeldTile(j: Job, s: R.Session, i: nat)
    requires ValidJob(j) && Idle(j, s) && i < Count(j) - 1 && i in s.tiles
    ensures R.Input(s, Frame(j.packet, j.rule, i)).session.pending == R.Idle
  {
    hide Frame, R.Input, Rcs.Check;
    FrameAccepted(j, s, i);
    assert (i + 1) * TILE <= |j.packet|;
    if s.last.Last? {
      TailRoom(j, s);
      LastWindowOf(j, s);
      if s.staging != Tail(s) {
        var n := s.staging / TILE;
        assert i < n && s.staging == n * TILE;
      }
    }
  }

  /** A tile makes an idle receiver abort if and only if it is late. */
  lemma TileAborts(j: Job, s: R.Session, i: nat)
    requires ValidJob(j) && Idle(j, s) && i < Count(j) - 1
    ensures R.Input(s, Frame(j.packet, j.rule, i)).session.pending == R.AbortDue <==> Late(s, i)
  {
    hide Frame, R.Input, R.Valid, Faithful;
    if Late(s, i) {
      LateTile(j, s, i);
    } else if i in s.tiles {
      HeldTile(j, s, i);
    } else {
      var t := CleanTile(j, s, i);
    }
  }

  // ----------------------------------------------------- out of attempts

  /** With no attempt left every answer turns into an abort, even a complete one. */
  lemma FinalizeExhausted(s: R.Session)
    requires s.last.Last? && s.last.window <= 1 && s.attempts >= MAX_ATTEMPTS
    ensures R.Finalize(s).session.pending == R.AbortDue
  {
    hide R.Finalize, R.Marked, R.Span, R.Negative, R.CheckPacket, R.HasFirst;
    R.FinalizeForms(s);
    var w := s.last.window;
    var bits := R.Marked(s.tiles, w);
    var k := R.Span(bits, WINDOW);
    var n := w * WINDOW + k;
    NegativeExhausted(s, 0, R.Marked(s.tiles, 0), R.QUIET);
    NegativeExhausted(s, w, bits + {0}, R.QUIET);
    if R.HasFirst(s.tiles, n) {
      CheckExhausted(s.(staging := n * TILE), n, k);
    }
  }

  lemma NegativeExhausted(s: R.Session, window: nat, bitmap: set<nat>, report: R.Report)
    requires s.attempts >= MAX_ATTEMPTS
    ensures R.Negative(s, window, bitmap, report).session.pending == R.AbortDue
  {
  }

  lemma CheckExhausted(s: R.Session, n: nat, k: nat)
    requires s.last.Last? && R.HasFirst(s.tiles, n) && s.attempts >= MAX_ATTEMPTS
    ensures R.CheckPacket(s, n, k).session.pending == R.AbortDue
  {
    hide R.Marked, R.Assemble, Rcs.Check;
  }

  lemma All1Exhausted(j: Job, s: R.Session)
    requires ValidJob(j) && Idle(j, s) && s.attempts >= MAX_ATTEMPTS
    ensures R.Input(s, Frame(j.packet, j.rule, Count(j) - 1)).session.pending == R.AbortDue
  {
    hide Frame, R.Input, R.Finalize, FragmentOf, R.All1;
    if s.last.Last? {
      LastWindowOf(j, s);
      FrameAccepted(j, s, Count(j) - 1);
      LastFragment(j);
      var u := R.Activate(s, j.rule);
      SecondAll1(j, u);
      FinalizeExhausted(u);
    } else {
      var v := FirstAll1(j, s);
      FinalizeExhausted(v);
    }
  }

  lemma AckRequestExhausted(j: Job, s: R.Session)
    requires ValidJob(j) && Idle(j, s) && s.attempts >= MAX_ATTEMPTS
    ensures R.Input(s, ControlWire(AckRequest, j.rule, LastWindow(j))).session.pending == R.AbortDue
  {
    hide R.Input, R.Finalize, R.Marked, ControlWire;
    AckRequestIs(j, s);
    if s.last.Last? {
      LastWindowOf(j, s);
      FinalizeExhausted(R.Activate(s, j.rule));
    }
  }

  // -------------------------------------------------------- every message

  /** The messages that make the receiver abort: a late tile, or a message that
      calls for an answer when no attempt is left. */
  ghost predicate Fatal(j: Job, s: R.Session, m: seq<byte>)
    requires ValidJob(j)
  {
    && !s.terminal && !s.delivered
    && (|| (s.pending == R.Idle && exists i :: 0 <= i < Count(j) - 1 && m == Frame(j.packet, j.rule, i) && Late(s, i))
        || (s.attempts >= MAX_ATTEMPTS &&
            (|| m == Frame(j.packet, j.rule, Count(j) - 1)
             || (s.pending == R.Idle && m == ControlWire(AckRequest, j.rule, LastWindow(j))))))
  }

  lemma FrameNumber(j: Job, i: nat, k: nat)
    requires ValidJob(j) && i < Count(j) && k < Count(j)
    ensures Frame(j.packet, j.rule, i) == Frame(j.packet, j.rule, k) ==> i == k
  {
    hide Frame, Rcs.Check;
    FrameDecodes(j, i);
    FrameDecodes(j, k);
  }

  lemma FrameNoControl(j: Job, i: nat)
    requires ValidJob(j) && i < Count(j)
    ensures Frame(j.packet, j.rule, i) != ControlWire(AckRequest, j.rule, LastWindow(j))
    ensures Frame(j.packet, j.rule, i) != ControlWire(SenderAbort, j.rule, 0)
  {
    hide Frame, Decode;
    FrameDecodes(j, i);
    ControlIsNotFragment(AckRequest, j.rule, LastWindow(j), FragmentOf(j.packet, j.rule, i), TILE);
    ControlIsNotFragment(SenderAbort, j.rule, 0, FragmentOf(j.packet, j.rule, i), TILE);
  }

  /** A receiver of the job that has not queued an abort yet. */
  ghost predicate Willing(j: Job, s: R.Session)
    requires ValidJob(j)
  {
    R.Valid(s) && Faithful(j, s) && |j.packet| <= s.limit && s.pending != R.AbortDue
  }

  lemma IdleFrameAborts(j: Job, s: R.Session, i: nat)
    requires ValidJob(j) && Idle(j, s) && i < Count(j)
    ensures R.LastOk(s)
    ensures var m := Frame(j.packet, j.rule, i);
            R.Input(s, m).session.pending == R.AbortDue <==> Fatal(j, s, m)
  {
    hide Frame, R.Input, R.Valid, Faithful, Late, ControlWire;
    Inv.LastInRange(s);
    FrameNoControl(j, i);
    forall k: nat | k < Count(j)
      ensures Frame(j.packet, j.rule, i) == Frame(j.packet, j.rule, k) ==> i == k
    {
      FrameNumber(j, i, k);
    }
    if i < Count(j) - 1 {
      TileAborts(j, s, i);
    } else if s.attempts >= MAX_ATTEMPTS {
      All1Exhausted(j, s);
    } else {
      var t := All1Answers(j, s);
    }
  }

  lemma IdleRequestAborts(j: Job, s: R.Session)
    requires ValidJob(j) && Idle(j, s)
    ensures R.LastOk(s)
    ensures var m := ControlWire(AckRequest, j.rule, LastWindow(j));
            R.Input(s, m).session.pending == R.AbortDue <==> Fatal(j, s, m)
  {
    hide Frame, R.Input, R.Valid, Faithful, Late, ControlWire;
    Inv.LastInRange(s);
    forall k: nat | k < Count(j)
      ensures Frame(j.packet, j.rule, k) != ControlWire(AckRequest, j.rule, LastWindow(j))
    {
      FrameNoControl(j, k);
    }
    if s.attempts >= MAX_ATTEMPTS {
      AckRequestExhausted(j, s);
    } else {
      var t := AckRequestAnswers(j, s);
    }
  }

  // --------------------------------------------------- the other sessions

  /** A delivered session starts over on a frame, with nothing to abort for. */
  lemma DeliveredFrame(j: Job, s: R.Session, i: nat)
    requires ValidJob(j) && Recovery.Done(j, s) && i < Count(j)
    ensures R.LastOk(s) && Idle(j, R.Reset(s)) && R.Reset(s).attempts == 0
    ensures var m := Frame(j.packet, j.rule, i);
            R.Input(s, m) == R.Input(R.Reset(s), m)
  {
    hide Frame, Decode, R.Finished, R.All1, R.Regular, R.IsControl, R.Parked;
    Inv.LastInRange(s);
    Inv.InitValid(s.limit);
    EmptyTiles(j);
    FrameIsNoControl(j, i, AckRequest);
    FrameIsNoControl(j, i, SenderAbort);
    FrameIsNoControl(j, i, ReceiverAbort);
    FrameDecodes(j, i);
  }

  /** While an answer is queued, only a repeated All-1 frame is acted on. */
  lemma QueuedInput(j: Job, s: R.Session, m: seq<byte>)
    requires ValidJob(j) && Willing(j, s) && s.pending != R.Idle && !s.terminal
    requires Emitted(j, m) && m != ControlWire(SenderAbort, j.rule, 0)
    ensures R.LastOk(s)
    ensures R.Input(s, m).session ==
            if s.last.Last? && m == Frame(j.packet, j.rule, Count(j) - 1) then R.Finalize(s).session else s
  {
    hide R.Finalize, R.Valid, Frame, Decode, R.IsControl, Rcs.Check, ControlWire;
    Inv.LastInRange(s);
    RuleOf(j, s);
    NotDelivered(s);
    if m == ControlWire(AckRequest, j.rule, LastWindow(j)) {
      RequestParts(j);
      FrameNoControl(j, Count(j) - 1);
    } else {
      var i :| 0 <= i < Count(j) && m == Frame(j.packet, j.rule, i);
      FrameIsNoControl(j, i, SenderAbort);
      FrameIsNoControl(j, i, ReceiverAbort);
      FrameDecodes(j, i);
      FrameStart(j, i);
      FrameNumber(j, i, Count(j) - 1);
      LastFragment(j);
    }
  }

  lemma NotDelivered(s: R.Session)
    requires R.Valid(s) && s.pending != R.Idle
    ensures !s.delivered && ValidRule(s.rule)
    ensures s.attempts >= MAX_ATTEMPTS && s.pending != R.AbortDue ==> s.last.Last?
  {
    hide R.Finished;
  }

  lemma RequestParts(j: Job)
    requires ValidJob(j)
    ensures var m := ControlWire(AckRequest, j.rule, LastWindow(j));
            && |m| == 2 && m[0] == j.rule && Decode(m, TILE).Err?
            && !R.IsControl(m, SenderAbort) && !R.IsControl(m, ReceiverAbort)
  {
    hide Decode;
    ControlIsNotFragment(AckRequest, j.rule, LastWindow(j), FragmentOf(j.packet, j.rule, 0), TILE);
  }

  lemma SenderAbortEnds(j: Job, s: R.Session)
    requires ValidJob(j) && Willing(j, s)
    ensures R.LastOk(s)
    ensures R.Input(s, ControlWire(SenderAbort, j.rule, 0)).session.pending == R.Idle || s.terminal
    ensures s.terminal ==> s.pending == R.Idle
    ensures !Fatal(j, s, ControlWire(SenderAbort, j.rule, 0))
  {
    hide Frame, R.Accept, R.Finished, R.Parked;
    Inv.LastInRange(s);
    var m := ControlWire(SenderAbort, j.rule, 0);
    assert m == ControlWire(SenderAbort, m[0], m[1] / 128);
    assert m != ControlWire(AckRequest, j.rule, LastWindow(j));
    forall k: nat | k < Count(j)
      ensures Frame(j.packet, j.rule, k) != m
    {
      FrameNoControl(j, k);
    }
  }

  lemma QueuedAborts(j: Job, s: R.Session, m: seq<byte>)
    requires ValidJob(j) && Willing(j, s) && s.pending != R.Idle && !s.terminal
    requires Emitted(j, m) && m != ControlWire(SenderAbort, j.rule, 0)
    ensures R.LastOk(s)
    ensures R.Input(s, m).session.pending == R.AbortDue <==> Fatal(j, s, m)
  {
    hide R.Finalize, R.Input, R.Valid, Frame, Faithful, ControlWire, Emitted;
    QueuedInput(j, s, m);
    NotDelivered(s);
    if s.last.Last? && m == Frame(j.packet, j.rule, Count(j) - 1) {
      if s.attempts >= MAX_ATTEMPTS {
        FinalizeExhausted(s);
      } else {
        RuleOf(j, s);
        FinalizeAnswers(j, s);
      }
    }
  }

  lemma DeliveredAborts(j: Job, s: R.Session, m: seq<byte>)
    requires ValidJob(j) && Recovery.Done(j, s) && Emitted(j, m) && m != ControlWire(SenderAbort, j.rule, 0)
    ensures R.LastOk(s) && R.Input(s, m).session.pending != R.AbortDue
  {
    hide R.Input, R.Valid, Frame, Faithful, ControlWire;
    if m == ControlWire(AckRequest, j.rule, LastWindow(j)) {
      DoneRestarts(j, s);
      IdleRequestAborts(j, R.Reset(s));
    } else {
      var i :| 0 <= i < Count(j) && m == Frame(j.packet, j.rule, i);
      DeliveredFrame(j, s, i);
      IdleFrameAborts(j, R.Reset(s), i);
    }
  }

  /** Whatever its sender emits, in any order: the receiver queues an abort if
      and only if the message is fatal. */
  lemma AbortsExactly(j: Job, s: R.Session, m: seq<byte>)
    requires ValidJob(j) && Willing(j, s) && Emitted(j, m)
    ensures R.LastOk(s)
    ensures R.Input(s, m).session.pending == R.AbortDue <==> Fatal(j, s, m)
  {
    hide R.Input, R.Valid, Frame, Faithful, ControlWire, Late;
    Inv.LastInRange(s);
    if s.terminal {
      SenderAbortEnds(j, s);
      TerminalStays(s, m);
    } else if m == ControlWire(SenderAbort, j.rule, 0) {
      SenderAbortEnds(j, s);
    } else if s.delivered {
      DeliveredAborts(j, s, m);
    } else if s.pending != R.Idle {
      QueuedAborts(j, s, m);
    } else if m == ControlWire(AckRequest, j.rule, LastWindow(j)) {
      IdleRequestAborts(j, s);
    } else {
      var i :| 0 <= i < Count(j) && m == Frame(j.packet, j.rule, i);
      IdleFrameAborts(j, s, i);
    }
  }

  lemma TerminalStays(s: R.Session, m: seq<byte>)
    requires R.LastOk(s) && s.terminal
    ensures R.Input(s, m).session == s
  {
  }

  // ------------------------------------------------------- a run to it

  /** A run of leading tiles whose RCS is wrong moves the All-1 tile up. */
  lemma MismatchParks(j: Job, s: R.Session, n: nat)
    requires ValidJob(j) && Faithful(j, s) && s.last.Last? && s.attempts < MAX_ATTEMPTS
    requires LastWindow(j) * WINDOW <= n < Count(j) - 1 && !Collision(j, n)
    requires forall o :: o in s.tiles <==> 0 <= o < n
    requires n * TILE + |s.last.tile| <= s.limit && n * TILE <= s.staging
    ensures var t := R.Finalize(s).session;
            t == s.(staging := n * TILE, pending := R.AckDue, ack := t.ack)
  {
    hide R.Finalize, R.Marked, R.Assemble, R.HasFirst, Rcs.Check, TilesOf;
    LastWindowOf(j, s);
    LeadingChecks(s, n);
    AssembleIsPrefix(j, s, n);
  }

  lemma MismatchHeard(j: Job, limit: nat, n: nat) returns (heard: seq<nat>)
    requires ValidJob(j) && |j.packet| <= limit <= MAX_PACKET
    requires LastWindow(j) * WINDOW <= n < Count(j) - 1 && !Collision(j, n)
    ensures heard == From(0, n) + [Count(j) - 1] && InRange(heard, Count(j))
    ensures var t := Hear(R.Init(limit), Frames(j.packet, j.rule, heard));
            && t.pending == R.AckDue && t.last.Last? && t.staging == n * TILE && t.limit == limit
            && t.attempts == 0 && forall o :: o in t.tiles <==> 0 <= o < n
  {
    hide Frame, R.Input, R.Finalize, Rcs.Check, Faithful, R.Valid, Frames, Collision, LastOf, Hear;
    heard := From(0, n) + [Count(j) - 1];
    var t := LeadingHeard(j, limit, n);
    LastLength(j);
    var v := FirstAll1(j, t);
    StagedFaithful(j, t, v);
    MismatchParks(j, v, n);
  }

  lemma StagedFaithful(j: Job, s: R.Session, v: R.Session)
    requires ValidJob(j) && Faithful(j, s) && s.pending == R.Idle && !s.delivered
    requires v == R.Activate(s, j.rule).(last := LastOf(j), staging := v.staging)
    ensures Faithful(j, v)
  {
    hide TilesOf, LastOf;
  }

  /** The answer goes out and is lost; then the tile after the next arrives. */
  lemma ThenLate(j: Job, s: R.Session, n: nat)
    requires ValidJob(j) && R.Valid(s) && Faithful(j, s) && |j.packet| <= s.limit
    requires s.pending == R.AckDue && s.last.Last? && s.staging == n * TILE && !s.terminal && !s.delivered
    requires n < Count(j) - 2 && forall o :: o in s.tiles <==> 0 <= o < n
    ensures var t := R.Next(s, 10).session;
            && R.Next(s, 10).out.Ok? && !R.Next(s, 10).report.complete
            && t == s.(pending := R.Idle, attempts := s.attempts + 1) && Recovery.Idle(j, t) && Late(t, n + 1)
  {
    hide AckCodec.Encode, TilesOf, LastOf, Useful, R.Finished;
    EncodedFirst(s.ack);
    TailRoom(j, s);
    Inv.NextValid(s, 10);
    assert n !in s.tiles;
  }

  lemma HeardSession(j: Job, s: R.Session)
    requires ValidJob(j) && Listening(j, s)
    ensures R.Valid(s) && Faithful(j, s) && |j.packet| <= s.limit && !s.terminal && !s.delivered
  {
  }

  lemma InForward(j: Job, w: World, i: nat)
    requires ValidJob(j) && i < Count(j)
    requires forall m :: m in Frames(j.packet, j.rule, From(0, Count(j))) ==> m in w.forward
    ensures Frame(j.packet, j.rule, i) in w.forward
  {
    hide Frame;
    assert Frames(j.packet, j.rule, From(0, Count(j)))[i] == Frame(j.packet, j.rule, i);
  }

  /** One late frame is enough: the first n tiles and the All-1 frame arrive,
      the answer is sent and lost, and tile n + 1 arrives after all. The
      receiver then aborts with one attempt used on either side. */
  lemma LateTileAborts(j: Job, s: S.Sender, senderLimit: nat, limit: nat, n: nat) returns (heard: seq<nat>)
    requires ValidJob(j) && S.Init(j.rule, j.packet, senderLimit) == Ok(s) && |j.packet| <= limit <= MAX_PACKET
    requires LastWindow(j) * WINDOW <= n < Count(j) - 2 && !Collision(j, n)
    ensures heard == From(0, n) + [Count(j) - 1] && InRange(heard, Count(j))
    ensures var late := [ReceiverPoll(10), ToReceiver(Frame(j.packet, j.rule, n + 1))];
            var v := Run(Start(s, limit), Pass(j, heard) + late);
            && v.receiver.pending == R.AbortDue && v.receiver.attempts == 1
            && S.Live(v.sender) && v.sender.attempts == 1 && v.reported == []
  {
    hide Frame, R.Input, R.Valid, Faithful, Late, Collision, Pass, LastOf, R.Next, Hear, Listening;
    heard := MismatchHeard(j, limit, n);
    var start := Start(s, limit);
    var w := PassLeaves(j, s, senderLimit, limit, heard);
    var m := Frame(j.packet, j.rule, n + 1);
    HeardSession(j, w.receiver);
    ThenLate(j, w.receiver, n);
    var u := Act(w, ReceiverPoll(10));
    ActSound(j, w, ReceiverPoll(10));
    LateTile(j, u.receiver, n + 1);
    InForward(j, w, n + 1);
    RunTwo(w, ReceiverPoll(10), ToReceiver(m));
    RunConcat(start, Pass(j, heard), [ReceiverPoll(10), ToReceiver(m)]);
    WaitingLive(j, w.sender);
  }
}

/** A first pass over a lossy channel, from the start: any of its frames arrive,
    in any order and any number of times, and whatever they leave is repaired. */
module LossyPass {
  import opened Bits
  import opened FragmentCodec
  import opened Tiles
  import opened Honest
  import opened Exchange
  import opened Lossless
  import opened Retransmission
  import opened Recovery
  import AckCodec
  import Rcs
  import S = Sender
  import R = Session
  import Inv = SessionInvariant
  import Runs = SessionRuns

  /** Still collecting tiles, or the All-1 tile is here and an answer queued. */
  ghost predicate Listening(j: Job, s: R.Session)
    requires ValidJob(j)
  {
    && R.Valid(s) && Faithful(j, s) && |j.packet| <= s.limit
    && !s.terminal && !s.delivered && s.attempts == 0
    && (if s.pending == R.Idle then !s.last.Last? else s.last.Last? && Answer(j, s))
  }

  /** A tile that is already here changes nothing. */
  lemma RepeatedTile(j: Job, s: R.Session, i: nat)
    requires ValidJob(j) && Idle(j, s) && !s.last.Last? && i < Count(j) - 1 && i in s.tiles
    ensures R.Input(s, Frame(j.packet, j.rule, i)).session == R.Activate(s, j.rule)
  {
    hide Frame;
    hide R.Input;
    hide Rcs.Check;
    FrameAccepted(j, s, i);
    assert (i + 1) * TILE <= |j.packet|;
  }

  /** While an answer is queued only the All-1 frame is heard. */
  lemma QueuedFrame(j: Job, s: R.Session, i: nat)
    requires ValidJob(j) && Listening(j, s) && s.pending != R.Idle && i < Count(j)
    ensures R.LastOk(s)
    ensures R.Input(s, Frame(j.packet, j.rule, i)).session ==
            if i < Count(j) - 1 then s else R.Finalize(s).session
  {
    hide Frame, Decode, R.Finalize, R.IsControl, R.Valid, Rcs.Check;
    Inv.LastInRange(s);
    FrameIsNoControl(j, i, AckRequest);
    FrameIsNoControl(j, i, SenderAbort);
    FrameIsNoControl(j, i, ReceiverAbort);
    FrameDecodes(j, i);
    FrameStart(j, i);
    if i == Count(j) - 1 {
      LastFragment(j);
    }
  }

  lemma FrameStart(j: Job, i: nat)
    requires ValidJob(j) && i < Count(j)
    ensures var m := Frame(j.packet, j.rule, i); |m| >= 2 && m[0] == j.rule
    ensures FragmentOf(j.packet, j.rule, i).fcn == ALL_1 <==> i == Count(j) - 1
  {
  }

  lemma HearFrame(j: Job, s: R.Session, i: nat)
    requires ValidJob(j) && Listening(j, s) && i < Count(j)
    ensures R.LastOk(s) && Listening(j, R.Input(s, Frame(j.packet, j.rule, i)).session)
    ensures R.Input(s, Frame(j.packet, j.rule, i)).session.limit == s.limit
  {
    hide Frame, R.Input, R.Valid, Faithful, Answer, R.Finalize;
    var m := Frame(j.packet, j.rule, i);
    assert Emitted(j, m);
    Inv.LastInRange(s);
    Inv.InputValid(s, m);
    InputFaithful(j, s, m);
    if s.pending != R.Idle {
      QueuedFrame(j, s, i);
      RuleOf(j, s);
      FinalizeAnswers(j, s);
      Runs.FinalizeKeeps(s);
      AnswerQueued(j, R.Finalize(s).session);
    } else if i == Count(j) - 1 {
      var t := All1Answers(j, s);
      AnswerQueued(j, t);
    } else if i in s.tiles {
      RepeatedTile(j, s, i);
    } else {
      var t := CleanTile(j, s, i);
    }
  }

  lemma RuleOf(j: Job, s: R.Session)
    requires ValidJob(j) && Faithful(j, s) && s.pending != R.Idle
    ensures s.rule == j.rule
  {
  }

  lemma AnswerQueued(j: Job, s: R.Session)
    requires ValidJob(j) && Answer(j, s)
    ensures s.pending != R.Idle
  {
  }

  lemma {:induction false} HearPass(j: Job, s: R.Session, heard: seq<nat>)
    requires ValidJob(j) && Listening(j, s) && InRange(heard, Count(j))
    ensures Listening(j, Hear(s, Frames(j.packet, j.rule, heard)))
    decreases |heard|
  {
    hide R.Input, Frame, Listening;
    if heard != [] {
      HearFrame(j, s, heard[0]);
      FramesFirst(j.packet, j.rule, heard);
      HearPass(j, R.Input(s, Frame(j.packet, j.rule, heard[0])).session, heard[1..]);
    }
  }

  // ------------------------------------------------------ the whole run

  /** All frames are sent once; those heard arrive, others are lost. */
  function Pass(j: Job, heard: seq<nat>): (actions: seq<Action>)
    requires ValidJob(j) && InRange(heard, Count(j))
  {
    SenderPolls(Count(j), MAX_MESSAGE) + Deliveries(Frames(j.packet, j.rule, heard))
  }

  lemma PassLeaves(j: Job, s: S.Sender, senderLimit: nat, limit: nat, heard: seq<nat>) returns (w: World)
    requires ValidJob(j) && S.Init(j.rule, j.packet, senderLimit) == Ok(s)
    requires |j.packet| <= limit <= MAX_PACKET && InRange(heard, Count(j))
    ensures w == Run(Start(s, limit), Pass(j, heard)) && Sound(j, w) && w.reported == []
    ensures w.receiver == Hear(R.Init(limit), Frames(j.packet, j.rule, heard)) && Listening(j, w.receiver)
    ensures w.sender.phase == S.Waiting && w.sender.attempts == 1
    ensures forall m :: m in Frames(j.packet, j.rule, From(0, Count(j))) ==> m in w.forward
  {
    hide Frame, S.Next, R.Input, Faithful, Listening, R.Valid;
    var start, wires := Start(s, limit), Frames(j.packet, j.rule, heard);
    StartSound(j, s, senderLimit, limit);
    EmptyListening(j, limit);
    HearPass(j, R.Init(limit), heard);
    FirstPass(s, MAX_MESSAGE);
    PollAll(start, Count(j), MAX_MESSAGE);
    var u := Run(start, SenderPolls(Count(j), MAX_MESSAGE));
    AmongAll(j, heard);
    RunSound(j, start, SenderPolls(Count(j), MAX_MESSAGE));
    DeliverAll(u, wires);
    RunConcat(start, SenderPolls(Count(j), MAX_MESSAGE), Deliveries(wires));
    w := Run(start, Pass(j, heard));
    RunSound(j, start, Pass(j, heard));
  }

  lemma AmongAll(j: Job, heard: seq<nat>)
    requires ValidJob(j) && InRange(heard, Count(j))
    ensures forall m :: m in Frames(j.packet, j.rule, heard) ==> m in Frames(j.packet, j.rule, From(0, Count(j)))
  {
    hide Frame;
    var wires := Frames(j.packet, j.rule, heard);
    forall m | m in wires
      ensures m in Frames(j.packet, j.rule, From(0, Count(j)))
    {
      var k :| 0 <= k < |heard| && m == wires[k];
      assert m == Frames(j.packet, j.rule, From(0, Count(j)))[heard[k]];
    }
  }

  lemma EmptyListening(j: Job, limit: nat)
    requires ValidJob(j) && |j.packet| <= limit <= MAX_PACKET
    ensures Listening(j, R.Init(limit))
  {
    Inv.InitValid(limit);
    EmptyTiles(j);
  }

  /** The receiver may answer, and the answer may be lost. */
  lemma AnswerLost(j: Job, w: World) returns (v: World)
    requires ValidJob(j) && Sound(j, w) && Listening(j, w.receiver)
    ensures v == Run(w, [ReceiverPoll(10)]) && Sound(j, v) && Recoverable(j, v.receiver)
    ensures v.sender == w.sender
  {
    hide AckCodec.Encode, TilesOf, LastOf, Useful, R.Finished, R.Parked;
    v := Act(w, ReceiverPoll(10));
    Inv.NextValid(w.receiver, 10);
    ActSound(j, w, ReceiverPoll(10));
    assert [ReceiverPoll(10)][1..] == [];
    assert Run(v, []) == v;
    if w.receiver.pending == R.AckDue || w.receiver.pending == R.CompleteDue {
      EncodedFirst(w.receiver.ack);
    }
  }

  lemma ListeningRecovers(j: Job, s: R.Session)
    requires ValidJob(j) && Listening(j, s)
    ensures Recoverable(j, s)
  {
  }

  /** Everything still in flight is lost. */
  function Lost(w: World): (v: World) {
    w.(forward := {}, backward := {})
  }

  lemma LostSound(j: Job, w: World)
    requires Sound(j, w) && S.Live(w.sender)
    ensures Sound(j, Lost(w))
  {
  }

  /** Whichever frames of the first pass arrive, in whatever order and however
      often, and whether or not the receiver answers, let everything else be
      lost, the answer included: some continuation ends with a packet reported
      and the sender successful. It needs one timeout, one ACK REQ and two
      rounds at most, and no reset of the receiver. */
  lemma LossyPassRepaired(j: Job, s: S.Sender, senderLimit: nat, limit: nat, heard: seq<nat>, answered: bool)
    returns (actions: seq<Action>)
    requires ValidJob(j) && S.Init(j.rule, j.packet, senderLimit) == Ok(s)
    requires |j.packet| <= limit <= MAX_PACKET && InRange(heard, Count(j))
    ensures var before := Pass(j, heard) + if answered then [ReceiverPoll(10)] else [];
            var w := Lost(Run(Start(s, limit), before));
            var v := Run(w, actions);
            && v.sender.status == S.Succeeded && |v.reported| == |w.reported| + 1
            && forall k :: 0 <= k < |v.reported| ==> Deliverable(j, v.reported[k])
    ensures Within(actions, 1, 1 + 2 * (WINDOW + 1))
  {
    hide Listening, Recoverable, Pass, Within, SenderFor, ReceiverFor, Deliverable;
    var start := Start(s, limit);
    var w := PassLeaves(j, s, senderLimit, limit, heard);
    var before := Pass(j, heard) + if answered then [ReceiverPoll(10)] else [];
    var u := w;
    if answered {
      u := AnswerLost(j, w);
      RunConcat(start, Pass(j, heard), [ReceiverPoll(10)]);
    } else {
      ListeningRecovers(j, w.receiver);
      assert before == Pass(j, heard);
    }
    WaitingLive(j, u.sender);
    LostSound(j, u);
    actions := LossIsRepaired(j, Lost(u));
    RunSound(j, Lost(u), actions);
  }

  lemma WaitingLive(j: Job, s: S.Sender)
    requires SenderFor(j, s) && s.phase == S.Waiting
    ensures S.Live(s)
  {
  }

  // ------------------------------------------------ when delivery is exact

  /** n leading tiles and the last tile have the RCS of the packet. */
  predicate Collision(j: Job, n: nat)
    requires ValidJob(j)
  {
    LastWindow(j) * WINDOW <= n < Count(j) - 1 && Rcs.Check(Leading(j, n)) == Rcs.Check(j.packet)
  }

  /** The first n tiles arrive, then the All-1 frame. */
  lemma LeadingHeard(j: Job, limit: nat, n: nat) returns (t: R.Session)
    requires ValidJob(j) && |j.packet| <= limit <= MAX_PACKET && n <= Count(j) - 1
    ensures Recovery.Idle(j, t) && !t.last.Last? && t.attempts == 0 && t.limit == limit && R.LastOk(t)
    ensures forall o :: o in t.tiles <==> 0 <= o < n
    ensures var heard := From(0, n) + [Count(j) - 1];
            && InRange(heard, Count(j))
            && Hear(R.Init(limit), Frames(j.packet, j.rule, heard)) ==
               R.Input(t, Frame(j.packet, j.rule, Count(j) - 1)).session
  {
    hide Frame, R.Input, Faithful, R.Valid, Frames, Hear;
    EmptyListening(j, limit);
    var init, tiles := R.Init(limit), From(0, n);
    t := FeedTiles(j, init, tiles);
    FramesLast(j, tiles, Count(j) - 1);
    HearConcat(init, Frames(j.packet, j.rule, tiles), [Frame(j.packet, j.rule, Count(j) - 1)]);
    HearOne(t, Frame(j.packet, j.rule, Count(j) - 1));
  }

  lemma ShortHeard(j: Job, limit: nat, n: nat) returns (heard: seq<nat>)
    requires ValidJob(j) && |j.packet| <= limit <= MAX_PACKET && Collision(j, n)
    ensures InRange(heard, Count(j))
    ensures var t := Hear(R.Init(limit), Frames(j.packet, j.rule, heard));
            t.pending == R.CompleteDue && t.packet == Leading(j, n)
  {
    hide Frame, R.Input, Rcs.Check, Faithful, R.Valid, Leading, Frames, Hear;
    heard := From(0, n) + [Count(j) - 1];
    var t := LeadingHeard(j, limit, n);
    ShortAll1(j, t, n);
  }

  lemma FramesLast(j: Job, tiles: seq<nat>, i: nat)
    requires ValidJob(j) && InRange(tiles, Count(j)) && i < Count(j)
    ensures Frames(j.packet, j.rule, tiles + [i]) == Frames(j.packet, j.rule, tiles) + [Frame(j.packet, j.rule, i)]
  {
    hide Frame;
  }

  lemma ShortAll1(j: Job, t: R.Session, n: nat)
    requires ValidJob(j) && Idle(j, t) && !t.last.Last? && t.attempts == 0 && Collision(j, n)
    requires forall o :: o in t.tiles <==> 0 <= o < n
    ensures R.LastOk(t)
    ensures var u := R.Input(t, Frame(j.packet, j.rule, Count(j) - 1)).session;
            u.pending == R.CompleteDue && u.packet == Leading(j, n)
  {
    hide Frame, R.Input, R.Finalize, R.Marked, Rcs.Check, FragmentOf, Leading;
    Inv.LastInRange(t);
    LastLength(j);
    var v := FirstAll1(j, t);
    LeadingCompletes(j, v, n);
  }

  ghost predicate AllExact(j: Job, reported: seq<seq<byte>>) {
    forall k :: 0 <= k < |reported| ==> reported[k] == j.packet
  }

  /** A packet is at risk only by its own bytes: every run reports exactly the
      packet if and only if no run of its leading tiles collides with it. */
  lemma ExactDelivery(j: Job, s: S.Sender, senderLimit: nat, limit: nat)
    requires ValidJob(j) && S.Init(j.rule, j.packet, senderLimit) == Ok(s) && |j.packet| <= limit <= MAX_PACKET
    ensures (forall actions :: AllExact(j, Run(Start(s, limit), actions).reported)) <==>
            (forall n: nat :: !Collision(j, n))
  {
    if forall n: nat :: !Collision(j, n) {
      forall actions
        ensures AllExact(j, Run(Start(s, limit), actions).reported)
      {
        NoCollisionExact(j, s, senderLimit, limit, actions);
      }
    } else {
      var n: nat :| Collision(j, n);
      var actions := ShortReported(j, s, senderLimit, limit, n);
      assert Run(Start(s, limit), actions).reported[0] != j.packet;
    }
  }

  lemma NoCollisionExact(j: Job, s: S.Sender, senderLimit: nat, limit: nat, actions: seq<Action>)
    requires ValidJob(j) && S.Init(j.rule, j.packet, senderLimit) == Ok(s) && |j.packet| <= limit <= MAX_PACKET
    requires forall n: nat :: !Collision(j, n)
    ensures AllExact(j, Run(Start(s, limit), actions).reported)
  {
    hide Rcs.Check;
    ExchangeSafe(j, s, senderLimit, limit, actions);
    var reported := Run(Start(s, limit), actions).reported;
    forall k | 0 <= k < |reported|
      ensures reported[k] == j.packet
    {
      DeliverableCases(j, reported[k]);
    }
  }

  lemma DeliverableCases(j: Job, packet: seq<byte>)
    requires ValidJob(j) && Deliverable(j, packet)
    ensures packet == j.packet || exists n: nat :: Collision(j, n)
  {
    hide Rcs.Check;
    if packet != j.packet {
      var n :| LastWindow(j) * WINDOW <= n < Count(j) - 1 &&
               packet == j.packet[..n * TILE] + Tile(j.packet, Count(j) - 1);
      assert Collision(j, n);
    }
  }

  lemma ShorterLeading(j: Job, n: nat)
    requires ValidJob(j) && n < Count(j) - 1
    ensures |Leading(j, n)| < |j.packet|
  {
    LastLength(j);
  }

  /** A colliding run of tiles does get reported. */
  lemma ShortReported(j: Job, s: S.Sender, senderLimit: nat, limit: nat, n: nat) returns (actions: seq<Action>)
    requires ValidJob(j) && S.Init(j.rule, j.packet, senderLimit) == Ok(s) && |j.packet| <= limit <= MAX_PACKET
    requires Collision(j, n)
    ensures Run(Start(s, limit), actions).reported == [Leading(j, n)]
    ensures Leading(j, n) != j.packet
  {
    ShorterLeading(j, n);
    hide R.Valid, Faithful, Rcs.Check, Collision, Leading;
    var heard := ShortHeard(j, limit, n);
    var w := PassLeaves(j, s, senderLimit, limit, heard);
    CompleteAnswers(j, w.receiver);
    var finish := [ReceiverPoll(10), ToSender(CompleteWire(j))];
    CloseOut(j, w);
    actions := Pass(j, heard) + finish;
    RunConcat(Start(s, limit), Pass(j, heard), finish);
  }
}

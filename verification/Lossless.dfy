/** With no loss, one pass in order delivers the packet and ends the sender. */
module Lossless {
  import opened Bits
  import opened FragmentCodec
  import opened Tiles
  import opened Honest
  import opened Exchange
  import opened Sets
  import AckCodec
  import Rcs
  import S = Sender
  import R = Session
  import Inv = SessionInvariant

  function FirstTiles(j: Job, k: nat): (tiles: map<nat, seq<byte>>)
    requires ValidJob(j) && k <= Count(j)
  {
    map i | 0 <= i < k :: Tile(j.packet, i)
  }

  /** The receiver after the first k frames. */
  function Fed(j: Job, limit: nat, k: nat): (r: R.Session)
    requires ValidJob(j) && k < Count(j)
  {
    R.Init(limit).(tiles := FirstTiles(j, k), active := k > 0, rule := if k > 0 then j.rule else 0)
  }

  lemma FrameIsNoControl(j: Job, i: nat, c: Control)
    requires ValidJob(j) && i < Count(j)
    ensures !R.IsControl(Frame(j.packet, j.rule, i), c)
  {
    var m := Frame(j.packet, j.rule, i);
    ControlIsNotFragment(c, m[0], m[1] / 128, FragmentOf(j.packet, j.rule, i), TILE);
  }

  lemma FrameDecodes(j: Job, i: nat)
    requires ValidJob(j) && i < Count(j)
    ensures Decode(Frame(j.packet, j.rule, i), TILE) == Ok(FragmentOf(j.packet, j.rule, i))
  {
    DecodeEncode(FragmentOf(j.packet, j.rule, i), TILE);
  }

  /** A frame of the job goes straight to the fragment branches. */
  lemma FrameAccepted(j: Job, r: R.Session, i: nat)
    requires ValidJob(j) && i < Count(j) && R.LastOk(r) && R.LastOk(R.Activate(r, j.rule))
    requires !r.terminal && !r.delivered && r.pending == R.Idle
    requires r.active ==> r.rule == j.rule
    ensures var f := FragmentOf(j.packet, j.rule, i);
            var t := R.Activate(r, j.rule);
            && f.window <= 1
            && R.Input(r, Frame(j.packet, j.rule, i)) ==
               if f.fcn == ALL_1 then R.All1(t, f) else R.Regular(t, f)
  {
    hide Frame;
    hide Decode;
    hide FragmentOf;
    hide R.All1;
    hide R.Regular;
    hide R.IsControl;
    FrameIsNoControl(j, i, AckRequest);
    FrameIsNoControl(j, i, SenderAbort);
    FrameIsNoControl(j, i, ReceiverAbort);
    FrameDecodes(j, i);
  }

  lemma FeedTile(j: Job, limit: nat, k: nat)
    requires ValidJob(j) && |j.packet| <= limit && k < Count(j) - 1
    ensures R.Input(Fed(j, limit, k), Frame(j.packet, j.rule, k)).session == Fed(j, limit, k + 1)
  {
    hide Frame;
    hide R.Input;
    FrameAccepted(j, Fed(j, limit, k), k);
    assert FirstTiles(j, k + 1) == FirstTiles(j, k)[k := Tile(j.packet, k)];
  }

  /** n leading tiles of the packet and its last tile. */
  function Leading(j: Job, n: nat): (packet: seq<byte>)
    requires ValidJob(j) && n <= Count(j) - 1
    ensures |packet| == n * TILE + |LastOf(j).tile|
  {
    j.packet[..n * TILE] + Tile(j.packet, Count(j) - 1)
  }

  /** A session with just those tiles completes if the RCS agrees. */
  lemma LeadingCompletes(j: Job, s: R.Session, n: nat)
    requires ValidJob(j) && Faithful(j, s) && s.last.Last? && s.rule == j.rule
    requires LastWindow(j) * WINDOW <= n <= Count(j) - 1 && Rcs.Check(Leading(j, n)) == Rcs.Check(j.packet)
    requires forall o :: o in s.tiles <==> 0 <= o < n
    requires n * TILE + |s.last.tile| <= s.limit && s.attempts < MAX_ATTEMPTS && n * TILE <= s.staging
    ensures R.Finalize(s).session ==
            s.(staging := n * TILE, packet := Leading(j, n), pending := R.CompleteDue, ack := CompleteAck(j))
  {
    hide R.Finalize, R.CheckPacket, R.Assemble, R.HasFirst, Rcs.Check, TilesOf;
    LastWindowOf(j, s);
    LeadingChecks(s, n);
    AssembleIsPrefix(j, s, n);
    PacketAccepted(s.(staging := n * TILE), n, n - s.last.window * WINDOW);
  }

  lemma PacketAccepted(s: R.Session, n: nat, k: nat)
    requires s.last.Last? && R.HasFirst(s.tiles, n) && s.attempts < MAX_ATTEMPTS
    requires Rcs.Check(R.Assemble(s.tiles, n) + s.last.tile) == s.last.rcs
    ensures R.CheckPacket(s, n, k).session ==
            s.(packet := R.Assemble(s.tiles, n) + s.last.tile, pending := R.CompleteDue,
               ack := AckCodec.Ack(s.rule, s.last.window, true, {}))
  {
    hide R.Assemble, Rcs.Check, R.Marked;
  }

  /** Leading tiles and nothing else: the packet is checked at once. */
  lemma LeadingChecks(s: R.Session, n: nat)
    requires s.last.Last? && s.last.window <= 1 && forall o :: o in s.tiles <==> 0 <= o < n
    requires s.last.window * WINDOW <= n <= s.last.window * WINDOW + WINDOW - 1
    requires n * TILE + |s.last.tile| <= s.limit && n * TILE <= s.staging
    ensures R.HasFirst(s.tiles, n)
    ensures R.Finalize(s) == R.CheckPacket(s.(staging := n * TILE), n, n - s.last.window * WINDOW)
  {
    hide R.Finalize, R.Marked, R.Span, R.CheckPacket, R.Negative, R.Abort, R.HasFirst;
    if s.last.window == 1 {
      FullFirst(s.tiles, n);
    }
    LeadingSpan(s.tiles, s.last.window, n);
    R.FinalizeForms(s);
  }

  lemma FullFirst(tiles: map<nat, seq<byte>>, n: nat)
    requires n >= WINDOW && forall o :: o in tiles <==> 0 <= o < n
    ensures R.Marked(tiles, 0) == AckCodec.MASK
  {
  }

  lemma LeadingSpan(tiles: map<nat, seq<byte>>, w: nat, n: nat)
    requires w * WINDOW <= n <= w * WINDOW + WINDOW - 1 && forall o :: o in tiles <==> 0 <= o < n
    ensures var bits := R.Marked(tiles, w);
            R.Span(bits, WINDOW) == n - w * WINDOW && forall b :: WINDOW - (n - w * WINDOW) <= b < WINDOW ==> b in bits
  {
    var bits := R.Marked(tiles, w);
    var k := R.Span(bits, WINDOW);
    assert n > w * WINDOW ==> WINDOW - 1 - (n - 1 - w * WINDOW) in bits;
    assert k > 0 ==> WINDOW - k in bits;
  }

  /** A session with every regular tile and the All-1 tile completes. */
  lemma AllTilesComplete(j: Job, s: R.Session)
    requires ValidJob(j) && Faithful(j, s) && s.last.Last? && s.rule == j.rule
    requires forall o :: o in s.tiles <==> 0 <= o < Count(j) - 1
    requires |j.packet| <= s.limit && s.attempts < MAX_ATTEMPTS
    requires (Count(j) - 1) * TILE <= s.staging
    ensures R.Finalize(s).session ==
            s.(staging := (Count(j) - 1) * TILE, packet := j.packet, pending := R.CompleteDue,
               ack := CompleteAck(j))
  {
    hide Rcs.Check, TilesOf, R.Finalize;
    LastLength(j);
    LeadingAll(j);
    LeadingCompletes(j, s, Count(j) - 1);
  }

  lemma LeadingAll(j: Job)
    requires ValidJob(j)
    ensures Leading(j, Count(j) - 1) == j.packet
  {
  }

  /** The first All-1 frame is parked at the end and the packet checked. */
  lemma FirstAll1(j: Job, s: R.Session) returns (v: R.Session)
    requires ValidJob(j) && Faithful(j, s) && |j.packet| <= s.limit
    requires !s.terminal && !s.delivered && s.pending == R.Idle && !s.last.Last?
    ensures v == R.Activate(s, j.rule).(last := LastOf(j), staging := s.limit - |LastOf(j).tile|)
    ensures v.last.Last? && v.last.window <= 1 && v.rule == j.rule && (Count(j) - 1) * TILE <= v.staging
    ensures var f := FragmentOf(j.packet, j.rule, Count(j) - 1);
            && f.window <= 1 && R.All1(R.Activate(s, j.rule), f) == R.Finalize(v)
            && f.window * WINDOW + WINDOW - 1 !in s.tiles && (f.window == 0 ==> R.Marked(s.tiles, 1) == {})
            && R.Input(s, Frame(j.packet, j.rule, Count(j) - 1)) == R.Finalize(v)
  {
    hide Frame, R.Input, R.Finalize, R.Marked, FragmentOf, Rcs.Check;
    FrameAccepted(j, s, Count(j) - 1);
    LastFragment(j);
    LastLength(j);
    RegularOnly(j, s);
    hide TilesOf, LastOf, R.All1;
    v := R.Activate(s, j.rule).(last := LastOf(j), staging := s.limit - |LastOf(j).tile|);
    All1Parked(R.Activate(s, j.rule), FragmentOf(j.packet, j.rule, Count(j) - 1));
  }

  lemma All1Parked(s: R.Session, f: Fragment)
    requires f.window <= 1 && !s.last.Last? && f.window * WINDOW + WINDOW - 1 !in s.tiles
    requires (f.window == 0 ==> R.Marked(s.tiles, 1) == {}) && |f.tile| + TILE * |s.tiles| <= s.limit
    ensures R.All1(s, f) == R.Finalize(s.(last := R.Last(f.window, f.rcs, f.tile), staging := s.limit - |f.tile|))
  {
    hide R.Finalize, R.Marked;
  }

  lemma RegularOnly(j: Job, s: R.Session)
    requires ValidJob(j) && Faithful(j, s)
    ensures LastWindow(j) * WINDOW + WINDOW - 1 !in s.tiles
    ensures LastWindow(j) == 0 ==> R.Marked(s.tiles, 1) == {}
    ensures |s.tiles| <= Count(j) - 1
  {
    assert R.Marked(s.tiles, 1) != {} ==> LastWindow(j) == 1;
    FewTiles(s.tiles, Count(j) - 1);
  }

  lemma {:induction false} FewTiles(tiles: map<nat, seq<byte>>, n: nat)
    requires forall o :: o in tiles ==> o < n
    ensures |tiles| <= n
    decreases n
  {
    if n == 0 {
      assert tiles == map[];
    } else {
      var rest := tiles - {n - 1};
      FewTiles(rest, n - 1);
      OneMore(tiles.Keys, rest.Keys, n - 1);
      assert |tiles| == |tiles.Keys| && |rest| == |rest.Keys|;
    }
  }

  lemma OneMore(a: set<nat>, b: set<nat>, x: nat)
    requires a <= b + {x}
    ensures |a| <= |b| + 1
  {
    assert a - {x} <= b;
    SubsetSize(a - {x}, b);
    assert x in a ==> |a - {x}| == |a| - 1;
    assert x !in a ==> a - {x} == a;
  }

  lemma FeedLast(j: Job, limit: nat)
    requires ValidJob(j) && |j.packet| <= limit
    ensures var n := Count(j) - 1;
            R.Input(Fed(j, limit, n), Frame(j.packet, j.rule, n)).session ==
            Fed(j, limit, n).(active := true, rule := j.rule, last := LastOf(j), staging := n * TILE,
                              packet := j.packet, pending := R.CompleteDue, ack := CompleteAck(j))
  {
    hide Frame, R.Input, R.Finalize, Rcs.Check, LastOf;
    var v := FirstAll1(j, Fed(j, limit, Count(j) - 1));
    AllTilesComplete(j, v);
  }

  lemma LastLength(j: Job)
    requires ValidJob(j)
    ensures |j.packet| == (Count(j) - 1) * TILE + |LastOf(j).tile|
    ensures LastOf(j).Last? && LastOf(j).window == LastWindow(j)
  {
  }

  // ------------------------------------------------------ the whole run

  /** Send and deliver the first k frames in turn. */
  function InOrder(j: Job, k: nat): (actions: seq<Action>)
    requires ValidJob(j) && k <= Count(j)
  {
    if k == 0 then []
    else InOrder(j, k - 1) + [SenderPoll(MAX_MESSAGE), ToReceiver(Frame(j.packet, j.rule, k - 1))]
  }

  lemma {:induction false} RunConcat(w: World, a: seq<Action>, b: seq<Action>)
    ensures Run(w, a + b) == Run(Run(w, a), b)
    decreases |a|
  {
    hide Act;
    hide ValidWorld;
    hide Enabled;
    if a == [] {
      assert a + b == b;
    } else {
      assert (a + b)[1..] == a[1..] + b;
      if ValidWorld(w) {
        RunConcat(if Enabled(w, a[0]) then Act(w, a[0]) else w, a[1..], b);
      } else {
        assert Run(w, a) == w;
        assert Run(w, b) == w;
      }
    }
  }

  lemma RunTwo(w: World, a: Action, b: Action)
    requires ValidWorld(w) && Enabled(w, a) && ValidWorld(Act(w, a)) && Enabled(Act(w, a), b)
    ensures Run(w, [a, b]) == Act(Act(w, a), b)
  {
    hide Act;
    hide ValidWorld;
    hide Enabled;
    assert [a, b][1..] == [b];
    assert [b][1..] == [];
    assert Run(Act(w, a), [b]) == Run(Act(Act(w, a), b), []);
  }

  ghost predicate Midway(j: Job, s: S.Sender, limit: nat, k: nat, w: World)
    requires ValidJob(j) && k < Count(j)
  {
    && w.sender == s.(next := k, status := if k == 0 then S.Ready else S.Active)
    && w.receiver == Fed(j, limit, k)
    && w.backward == {} && w.reported == []
  }

  lemma SendOne(j: Job, s: S.Sender, k: nat)
    requires ValidJob(j) && S.Valid(s) && s.phase == S.Initial && s.next == k
    requires s.packet == j.packet && s.rule == j.rule
    ensures S.Next(s, MAX_MESSAGE).1 == Ok(Frame(j.packet, j.rule, k))
    ensures S.Next(s, MAX_MESSAGE).0 ==
            if k + 1 < Count(j) then s.(next := k + 1, status := S.Active)
            else s.(next := k + 1, status := S.Active, attempts := 1, phase := S.Waiting)
  {
  }

  lemma FedFaithful(j: Job, limit: nat, k: nat)
    requires ValidJob(j) && k < Count(j) && |j.packet| <= limit <= MAX_PACKET
    ensures R.Valid(Fed(j, limit, k)) && Faithful(j, Fed(j, limit, k))
  {
  }

  lemma Turn(j: Job, s: S.Sender, senderLimit: nat, limit: nat, k: nat, w: World)
    requires ValidJob(j) && |j.packet| <= limit <= MAX_PACKET && k < Count(j) - 1
    requires S.Init(j.rule, j.packet, senderLimit) == Ok(s) && Midway(j, s, limit, k, w)
    ensures var m := Frame(j.packet, j.rule, k);
            Midway(j, s, limit, k + 1, Run(w, [SenderPoll(MAX_MESSAGE), ToReceiver(m)]))
  {
    hide Frame;
    hide S.Next;
    hide R.Input;
    hide Fed;
    hide R.Valid;
    FedFaithful(j, limit, k);
    SendOne(j, w.sender, k);
    FeedTile(j, limit, k);
    RunTwo(w, SenderPoll(MAX_MESSAGE), ToReceiver(Frame(j.packet, j.rule, k)));
  }

  lemma StartMidway(j: Job, s: S.Sender, senderLimit: nat, limit: nat)
    requires ValidJob(j) && S.Init(j.rule, j.packet, senderLimit) == Ok(s)
    ensures Midway(j, s, limit, 0, Start(s, limit))
  {
    assert FirstTiles(j, 0) == map[];
  }

  lemma {:induction false} InOrderReaches(j: Job, s: S.Sender, senderLimit: nat, limit: nat, k: nat)
    requires ValidJob(j) && |j.packet| <= limit <= MAX_PACKET && k < Count(j)
    requires S.Init(j.rule, j.packet, senderLimit) == Ok(s)
    ensures Midway(j, s, limit, k, Run(Start(s, limit), InOrder(j, k)))
    decreases k
  {
    hide Midway;
    hide Frame;
    if k == 0 {
      StartMidway(j, s, senderLimit, limit);
    } else {
      InOrderReaches(j, s, senderLimit, limit, k - 1);
      var w := Run(Start(s, limit), InOrder(j, k - 1));
      RunConcat(Start(s, limit), InOrder(j, k - 1),
                [SenderPoll(MAX_MESSAGE), ToReceiver(Frame(j.packet, j.rule, k - 1))]);
      Turn(j, s, senderLimit, limit, k - 1, w);
    }
  }

  function CompleteWire(j: Job): (m: seq<byte>)
    requires ValidJob(j)
  {
    AckCodec.Encode(CompleteAck(j))
  }

  /** After the All-1 frame the receiver is ready to report the packet. */
  lemma LastTurn(j: Job, s: S.Sender, senderLimit: nat, limit: nat, w: World) returns (v: World)
    requires ValidJob(j) && |j.packet| <= limit <= MAX_PACKET
    requires S.Init(j.rule, j.packet, senderLimit) == Ok(s) && Midway(j, s, limit, Count(j) - 1, w)
    ensures v == Run(w, [SenderPoll(MAX_MESSAGE), ToReceiver(Frame(j.packet, j.rule, Count(j) - 1))])
    ensures v.sender == s.(next := Count(j), status := S.Active, attempts := 1, phase := S.Waiting)
    ensures v.receiver.pending == R.CompleteDue && v.receiver.packet == j.packet
    ensures v.receiver.ack == CompleteAck(j) && R.Valid(v.receiver)
    ensures v.backward == {} && v.reported == []
  {
    hide Frame;
    hide S.Next;
    hide R.Input;
    hide Fed;
    hide R.Valid;
    var n := Count(j) - 1;
    FedFaithful(j, limit, n);
    SendOne(j, w.sender, n);
    FeedLast(j, limit);
    RunTwo(w, SenderPoll(MAX_MESSAGE), ToReceiver(Frame(j.packet, j.rule, n)));
    v := Run(w, [SenderPoll(MAX_MESSAGE), ToReceiver(Frame(j.packet, j.rule, n))]);
    Inv.InputValid(w.receiver, Frame(j.packet, j.rule, n));
  }

  lemma CloseOut(j: Job, v: World)
    requires ValidJob(j) && ValidWorld(v) && v.sender.rule == j.rule
    requires v.sender.phase == S.Waiting && v.sender.packet == j.packet
    requires v.receiver.pending == R.CompleteDue && v.receiver.ack == CompleteAck(j)
    ensures var u := Run(v, [ReceiverPoll(10), ToSender(CompleteWire(j))]);
            u.sender.status == S.Succeeded && u.reported == v.reported + [v.receiver.packet]
  {
    hide AckCodec.Encode;
    hide AckCodec.Decode;
    hide R.Valid;
    Inv.NextValid(v.receiver, 10);
    AckCodec.AbortIsNotAck(ReceiverAbort, j.rule, {}, false, CompleteAck(j));
    AckCodec.DecodeEncode(CompleteAck(j), {}, false);
    CompleteRule(j);
    var u := Act(v, ReceiverPoll(10));
    assert CompleteWire(j) in u.backward;
    RunTwo(v, ReceiverPoll(10), ToSender(CompleteWire(j)));
  }

  lemma CompleteRule(j: Job)
    requires ValidJob(j)
    ensures |CompleteWire(j)| == 2 && CompleteWire(j)[0] == j.rule
  {
  }

  /** Lossless in-order delivery: every packet that fits the receiver arrives
      in one pass and its ACK ends the sender in success. */
  lemma OnePassDelivers(j: Job, s: S.Sender, senderLimit: nat, limit: nat)
    requires S.Init(j.rule, j.packet, senderLimit) == Ok(s)
    requires |j.packet| <= limit <= MAX_PACKET
    ensures ValidJob(j)
    ensures var w := Run(Start(s, limit), InOrder(j, Count(j)) +
                                          [ReceiverPoll(10), ToSender(CompleteWire(j))]);
            w.sender.status == S.Succeeded && w.reported == [j.packet]
  {
    hide Frame;
    hide Midway;
    hide R.Valid;
    var n := Count(j) - 1;
    var finish := [ReceiverPoll(10), ToSender(CompleteWire(j))];
    InOrderReaches(j, s, senderLimit, limit, n);
    var w := Run(Start(s, limit), InOrder(j, n));
    var v := LastTurn(j, s, senderLimit, limit, w);
    RunConcat(Start(s, limit), InOrder(j, n),
              [SenderPoll(MAX_MESSAGE), ToReceiver(Frame(j.packet, j.rule, n))]);
    RunConcat(Start(s, limit), InOrder(j, Count(j)), finish);
    CloseOut(j, v);
  }
}

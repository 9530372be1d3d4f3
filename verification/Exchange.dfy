/** Sender and receiver together. Everything either side ever sent stays in
    flight, and any of it may be delivered at any time, again and again or
    never: loss, duplication and reordering. */
module Exchange {
  import opened Bits
  import opened FragmentCodec
  import opened Tiles
  import opened Honest
  import AckCodec
  import S = Sender
  import R = Session
  import Inv = SessionInvariant

  datatype World = World(
    sender: S.Sender, receiver: R.Session,
    forward: set<seq<byte>>, backward: set<seq<byte>>, reported: seq<seq<byte>>)

  datatype Action =
    | SenderPoll(room: nat) | SenderTimeout | ToSender(message: seq<byte>)
    | ReceiverPoll(room: nat) | ReceiverExpire | ReceiverRelease | ToReceiver(message: seq<byte>)

  /** Only messages in flight can arrive. */
  predicate Enabled(w: World, a: Action) {
    (a.ToSender? ==> a.message in w.backward) && (a.ToReceiver? ==> a.message in w.forward)
  }

  ghost predicate ValidWorld(w: World) {
    S.Valid(w.sender) && R.Valid(w.receiver)
  }

  function Act(w: World, a: Action): (v: World)
    requires ValidWorld(w)
  {
    match a
    case SenderPoll(room) =>
      var (s, out) := S.Next(w.sender, room);
      w.(sender := s, forward := w.forward + if out.Ok? then {out.value} else {})
    case SenderTimeout => w.(sender := S.Timeout(w.sender).0)
    case ToSender(m) => w.(sender := S.Input(w.sender, m).0)
    case ReceiverPoll(room) =>
      var r := R.Next(w.receiver, room);
      w.(receiver := r.session, backward := w.backward + if r.out.Ok? then {r.out.value} else {},
         reported := w.reported + if r.report.complete then [w.receiver.packet] else [])
    case ReceiverExpire => w.(receiver := R.Expire(w.receiver).session)
    case ReceiverRelease => w.(receiver := R.Reset(w.receiver))
    case ToReceiver(m) => w.(receiver := R.Input(w.receiver, m).session)
  }

  // ------------------------------------------------------------ invariant

  function CompleteAck(j: Job): (a: AckCodec.Ack)
    requires ValidJob(j)
    ensures AckCodec.ValidAck(a)
  {
    AckCodec.Ack(j.rule, LastWindow(j), true, {})
  }

  /** What the receiver can have answered. */
  ghost predicate Answered(j: Job, m: seq<byte>, reported: bool)
    requires ValidJob(j)
  {
    || m == ControlWire(ReceiverAbort, j.rule, 0)
    || (reported && m == AckCodec.Encode(CompleteAck(j)))
    || exists a :: Useful(j, a) && AckCodec.ValidAck(a) && m == AckCodec.Encode(a)
  }

  ghost predicate SenderFor(j: Job, s: S.Sender) {
    S.Valid(s) && s.rule == j.rule && (S.Live(s) ==> s.packet == j.packet)
  }

  ghost predicate ReceiverFor(j: Job, r: R.Session)
    requires ValidJob(j)
  {
    R.Valid(r) && Faithful(j, r)
  }

  /** Holds in every reachable state. */
  ghost predicate Sound(j: Job, w: World) {
    && ValidJob(j) && SenderFor(j, w.sender) && ReceiverFor(j, w.receiver)
    && (forall m :: m in w.forward ==> Emitted(j, m))
    && (forall m :: m in w.backward ==> Answered(j, m, w.reported != []))
    && (forall k :: 0 <= k < |w.reported| ==> Deliverable(j, w.reported[k]))
    && (w.sender.status == S.Succeeded ==> w.reported != [])
    && (w.sender.status == S.Aborted ==>
          w.sender.attempts == MAX_ATTEMPTS ||
          ControlWire(ReceiverAbort, j.rule, 0) in w.backward)
  }

  // --------------------------------------------------------------- sender

  lemma SenderEmits(j: Job, s: S.Sender, room: nat)
    requires ValidJob(j) && SenderFor(j, s)
    ensures SenderFor(j, S.Next(s, room).0)
    ensures S.Next(s, room).1.Ok? ==> Emitted(j, S.Next(s, room).1.value)
    ensures S.Next(s, room).0.status == S.Succeeded ==> s.status == S.Succeeded
    ensures S.Next(s, room).0.status == S.Aborted ==>
              s.status == S.Aborted || S.Next(s, room).0.attempts == MAX_ATTEMPTS
    ensures s.status == S.Aborted ==> S.Next(s, room).0.attempts == s.attempts
  {
    hide Frame;
  }

  /** Every answer decodes at the sender and none makes it take the abort for
      an ACK that leaves nothing missing. */
  lemma SenderHears(j: Job, s: S.Sender, m: seq<byte>, reported: bool)
    requires ValidJob(j) && SenderFor(j, s) && Answered(j, m, reported)
    ensures SenderFor(j, S.Input(s, m).0) && S.Input(s, m).1 == Ok(0)
    ensures S.Input(s, m).0.status == S.Succeeded ==> s.status == S.Succeeded || reported
    ensures S.Input(s, m).0.status == S.Aborted ==>
              || s.status == S.Aborted || s.attempts == MAX_ATTEMPTS
              || m == ControlWire(ReceiverAbort, j.rule, 0)
    ensures S.Input(s, m).0.attempts == s.attempts
  {
    hide AckCodec.Decode;
    hide AckCodec.Encode;
    if s.status == S.Active && s.phase == S.Waiting && m != ControlWire(ReceiverAbort, j.rule, 0) {
      if reported && m == AckCodec.Encode(CompleteAck(j)) {
        AckCodec.DecodeEncode(CompleteAck(j), {}, false);
      } else {
        var a :| Useful(j, a) && AckCodec.ValidAck(a) && m == AckCodec.Encode(a);
        UsefulDecodes(j, s, a);
      }
    }
  }

  lemma UsefulDecodes(j: Job, s: S.Sender, a: AckCodec.Ack)
    requires ValidJob(j) && SenderFor(j, s) && s.phase == S.Waiting
    requires Useful(j, a) && AckCodec.ValidAck(a)
    ensures var bits := Assigned(Count(j), a.window);
            && AckCodec.Decode(AckCodec.Encode(a), {}, false) == Ok(a)
            && AckCodec.Decode(AckCodec.Encode(a), bits, true) == Ok(a)
            && bits - a.bitmap != {}
  {
    hide AckCodec.Decode;
    hide AckCodec.Encode;
    var bits := Assigned(Count(j), a.window);
    forall b | b in bits
      ensures b < WINDOW
    {
      AssignedTile(Count(j), a.window, b);
    }
    assert a.bitmap * AckCodec.MASK == a.bitmap;
    AckCodec.DecodeEncode(a, {}, false);
    AckCodec.DecodeEncode(a, bits, true);
    var b :| b in bits && b !in a.bitmap;
    assert b in bits - a.bitmap;
  }

  // ------------------------------------------------------------- receiver

  lemma ReceiverAnswers(j: Job, r: R.Session, room: nat)
    requires ValidJob(j) && ReceiverFor(j, r)
    ensures ReceiverFor(j, R.Next(r, room).session)
    ensures R.Next(r, room).out.Ok? ==>
              Answered(j, R.Next(r, room).out.value, R.Next(r, room).report.complete)
    ensures R.Next(r, room).report.complete ==> Deliverable(j, r.packet)
  {
    hide TilesOf;
    hide Useful;
    hide AckCodec.Encode;
    hide ControlWire;
    hide R.Finished;
    Inv.NextValid(r, room);
    if r.pending == R.CompleteDue {
      FinishedDeliverable(j, r);
    }
    assert TilesOf(j, map[]) by {
      EmptyTiles(j);
    }
  }

  lemma EmptyTiles(j: Job)
    requires ValidJob(j)
    ensures TilesOf(j, map[])
  {
  }

  lemma ReceiverHears(j: Job, r: R.Session, m: seq<byte>)
    requires ValidJob(j) && ReceiverFor(j, r) && Emitted(j, m)
    ensures ReceiverFor(j, R.Input(r, m).session)
  {
    hide R.Input;
    hide R.Valid;
    hide Faithful;
    Inv.InputValid(r, m);
    InputFaithful(j, r, m);
  }

  // ----------------------------------------------------------------- runs

  lemma ActSound(j: Job, w: World, a: Action)
    requires Sound(j, w) && Enabled(w, a)
    ensures Sound(j, Act(w, a))
  {
    hide S.Next;
    hide S.Input;
    hide R.Input;
    hide R.Next;
    hide R.Valid;
    hide Faithful;
    hide Emitted;
    hide Answered;
    hide Deliverable;
    match a
    case SenderPoll(room) =>
      SenderEmits(j, w.sender, room);
    case SenderTimeout =>
    case ToSender(m) =>
      SenderHears(j, w.sender, m, w.reported != []);
    case ReceiverPoll(room) =>
      ReceiverAnswers(j, w.receiver, room);
      var v := Act(w, a);
      forall m | m in v.backward
        ensures Answered(j, m, v.reported != [])
      {
        if m in w.backward {
          AnsweredLater(j, m, w.reported != [], v.reported != []);
        } else {
          AnsweredLater(j, m, R.Next(w.receiver, room).report.complete, v.reported != []);
        }
      }
    case ReceiverExpire =>
      ExpireFaithful(j, w.receiver);
    case ReceiverRelease =>
      ResetFaithful(j, w.receiver);
    case ToReceiver(m) =>
      ReceiverHears(j, w.receiver, m);
  }

  lemma AnsweredLater(j: Job, m: seq<byte>, before: bool, after: bool)
    requires ValidJob(j) && Answered(j, m, before) && (before ==> after)
    ensures Answered(j, m, after)
  {
  }

  lemma ExpireFaithful(j: Job, r: R.Session)
    requires ValidJob(j) && ReceiverFor(j, r)
    ensures ReceiverFor(j, R.Expire(r).session)
  {
    Inv.ExpireValid(r);
  }

  lemma ResetFaithful(j: Job, r: R.Session)
    requires ValidJob(j) && ReceiverFor(j, r)
    ensures ReceiverFor(j, R.Reset(r))
  {
    Inv.InitValid(r.limit);
  }

  /** A run: actions that are not enabled do nothing. */
  ghost function Run(w: World, actions: seq<Action>): (v: World)
    decreases |actions|
  {
    if actions == [] || !ValidWorld(w) then w
    else Run(if Enabled(w, actions[0]) then Act(w, actions[0]) else w, actions[1..])
  }

  lemma {:induction false} RunSound(j: Job, w: World, actions: seq<Action>)
    requires Sound(j, w)
    ensures Sound(j, Run(w, actions))
    decreases |actions|
  {
    hide Act;
    hide Sound;
    if actions != [] && ValidWorld(w) {
      if Enabled(w, actions[0]) {
        ActSound(j, w, actions[0]);
        RunSound(j, Act(w, actions[0]), actions[1..]);
      } else {
        RunSound(j, w, actions[1..]);
      }
    }
  }

  function Start(s: S.Sender, limit: nat): (w: World) {
    World(s, R.Init(limit), {}, {}, [])
  }

  lemma StartSound(j: Job, s: S.Sender, senderLimit: nat, limit: nat)
    requires S.Init(j.rule, j.packet, senderLimit) == Ok(s) && 0 < limit <= MAX_PACKET
    ensures Sound(j, Start(s, limit))
  {
    Inv.InitValid(limit);
  }

  /** End-to-end safety, for every packet and every interleaving of polls,
      timers and deliveries over a channel that loses, repeats and reorders:
      whatever the receiver reports is the packet or a run of its leading tiles
      plus its last tile with the same RCS; the sender succeeds only after a
      report; and it gives up only out of attempts or told to by the receiver. */
  lemma ExchangeSafe(j: Job, s: S.Sender, senderLimit: nat, limit: nat, actions: seq<Action>)
    requires S.Init(j.rule, j.packet, senderLimit) == Ok(s) && 0 < limit <= MAX_PACKET
    ensures ValidJob(j)
    ensures var w := Run(Start(s, limit), actions);
            && (forall k :: 0 <= k < |w.reported| ==> Deliverable(j, w.reported[k]))
            && (w.sender.status == S.Succeeded ==> w.reported != [])
            && (w.sender.status == S.Aborted ==>
                  w.sender.attempts == MAX_ATTEMPTS ||
                  ControlWire(ReceiverAbort, j.rule, 0) in w.backward)
            && (forall m :: m in w.backward ==> S.Valid(w.sender) && S.Input(w.sender, m).1 == Ok(0))
  {
    StartSound(j, s, senderLimit, limit);
    RunSound(j, Start(s, limit), actions);
    var w := Run(Start(s, limit), actions);
    forall m | m in w.backward
      ensures S.Input(w.sender, m).1 == Ok(0)
    {
      SenderHears(j, w.sender, m, w.reported != []);
    }
  }
}

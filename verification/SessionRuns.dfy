/** Whole runs of the receiver under arbitrary messages, polls, expiries and
    releases. */
module SessionRuns {
  import opened Bits
  import opened FragmentCodec
  import opened Tiles
  import opened Session
  import opened SessionInvariant
  import AckCodec
  import Rcs

  datatype Event = Receive(message: seq<byte>) | Poll(room: nat) | Expiry | Release

  /** The state after a run, the messages sent and the packets reported. */
  datatype Trace = Trace(session: Session, sent: seq<seq<byte>>, packets: seq<seq<byte>>)

  function Step(s: Session, e: Event): (t: Trace)
    requires Valid(s)
    ensures Valid(t.session)
  {
    match e
    case Receive(m) =>
      InputValid(s, m);
      Trace(Input(s, m).session, [], [])
    case Poll(room) =>
      NextValid(s, room);
      var r := Next(s, room);
      Trace(r.session, if r.out.Ok? then [r.out.value] else [],
            if r.report.complete then [s.packet] else [])
    case Expiry =>
      ExpireValid(s);
      Trace(Expire(s).session, [], [])
    case Release =>
      InitValid(s.limit);
      Trace(Reset(s), [], [])
  }

  function Run(s: Session, events: seq<Event>): (t: Trace)
    requires Valid(s)
    ensures Valid(t.session)
    decreases |events|
  {
    if events == [] then Trace(s, [], [])
    else
      var a := Step(s, events[0]);
      var b := Run(a.session, events[1..]);
      Trace(b.session, a.sent + b.sent, a.packets + b.packets)
  }

  // ----------------------------------------------------- bounded answers

  /** Negative ACKs a session can still send before it is reset. */
  function Asks(s: Session): (n: int) {
    if s.terminal || s.delivered || s.pending == AbortDue then 0 else MAX_ATTEMPTS - s.attempts
  }

  /** Complete ACKs and aborts it can still send. */
  function Closes(s: Session): (n: nat) {
    if s.terminal || s.delivered then 0 else 1
  }

  /** A negative ACK, by its C bit; everything else a receiver sends closes. */
  predicate IsNegative(m: seq<byte>) {
    |m| >= 2 && m[1] / 64 % 2 == 0
  }

  function Negatives(sent: seq<seq<byte>>): (n: nat)
    ensures n <= |sent|
  {
    if sent == [] then 0 else (if IsNegative(sent[0]) then 1 else 0) + Negatives(sent[1..])
  }

  function Closings(sent: seq<seq<byte>>): (n: nat) {
    |sent| - Negatives(sent)
  }

  lemma {:induction false} NegativesConcat(a: seq<seq<byte>>, b: seq<seq<byte>>)
    ensures Negatives(a + b) == Negatives(a) + Negatives(b)
  {
    if a == [] {
      assert a + b == b;
    } else {
      assert (a + b)[1..] == a[1..] + b;
      NegativesConcat(a[1..], b);
    }
  }

  /** What a poll sends: a negative ACK of this session exactly when one is due,
      otherwise its complete ACK or a Receiver-Abort. */
  lemma SentKind(s: Session, room: nat)
    requires Valid(s) && Next(s, room).out.Ok?
    ensures var m := Next(s, room).out.value;
            && (IsNegative(m) <==> s.pending == AckDue)
            && (s.pending == AckDue ==> m == AckCodec.Encode(s.ack) && !s.ack.complete)
            && (s.pending == CompleteDue ==> m == AckCodec.Encode(s.ack) && s.ack.complete)
            && (s.pending == AbortDue ==> m == ControlWire(ReceiverAbort, s.rule, 0))
  {
    hide Finished, Parked;
    if s.pending == AckDue {
      hide AckCodec.Encode;
      assert AckCodec.ValidAck(s.ack);
      AckCodec.EncodeHeader(s.ack);
    }
  }

  /** The step puts a fresh session in the place of a finished one. */
  predicate Renews(s: Session, e: Event)
    requires LastOk(s)
  {
    match e
    case Receive(m) => s.delivered && !Input(s, m).session.delivered
    case Release => true
    case Poll(_) => false
    case Expiry => false
  }

  function Renewals(s: Session, events: seq<Event>): (n: nat)
    requires Valid(s)
    decreases |events|
  {
    if events == [] then 0
    else (if Renews(s, events[0]) then 1 else 0) + Renewals(Step(s, events[0]).session, events[1..])
  }

  lemma InputAsks(s: Session, m: seq<byte>)
    requires Valid(s) && !s.delivered
    ensures Asks(Input(s, m).session) <= Asks(s)
  {
    hide Accept;
    if |m| >= 2 && !s.terminal {
      AcceptAsks(s, m, IsControl(m, AckRequest));
    }
  }

  /** The parts of a session that queueing an answer leaves alone. */
  ghost predicate Keeps(s: Session, t: Session) {
    && t.attempts == s.attempts && t.delivered == s.delivered && t.terminal == s.terminal
    && t.limit == s.limit && t.tiles == s.tiles && t.last == s.last
  }

  lemma CheckPacketKeeps(s: Session, n: nat, k: nat)
    requires s.last.Last? && HasFirst(s.tiles, n)
    ensures Keeps(s, CheckPacket(s.(staging := n * TILE), n, k).session)
  {
    hide Rcs.Check, Marked, Assemble;
  }

  lemma FinalizeKeeps(s: Session)
    requires s.last.Last? && s.last.window <= 1
    ensures Keeps(s, Finalize(s).session)
  {
    hide Finalize, CheckPacket, Marked, Span, Negative, Abort, Keeps;
    FinalizeForms(s);
    var w := s.last.window;
    var bits := Marked(s.tiles, w);
    var k := Span(bits, WINDOW);
    var n := w * WINDOW + k;
    NegativeKeeps(s, 0, Marked(s.tiles, 0), QUIET);
    NegativeKeeps(s, w, bits + {0}, QUIET);
    AbortKeeps(s);
    if HasFirst(s.tiles, n) {
      CheckPacketKeeps(s, n, k);
    }
  }

  lemma NegativeKeeps(s: Session, window: nat, bitmap: set<nat>, report: Report)
    ensures Keeps(s, Negative(s, window, bitmap, report).session)
  {
  }

  lemma AbortKeeps(s: Session)
    ensures Keeps(s, Abort(s, s.rule).session)
  {
  }

  lemma AcceptAsks(s: Session, m: seq<byte>, request: bool)
    requires LastOk(s) && !s.delivered && !s.terminal && |m| >= 2
    requires s.attempts <= MAX_ATTEMPTS
    ensures Asks(Accept(s, m, request).session) <= Asks(s)
    ensures Accept(s, m, request).session.limit == s.limit
  {
    hide Decode;
    hide Finalize;
    hide Marked;
    if Decode(m, TILE).Ok? {
      EncodeDecode(m, TILE);
    }
    if s.last.Last? {
      FinalizeKeeps(s);
      FinalizeKeeps(Activate(s, m[0]));
    } else if s.pending == Idle && !request && Decode(m, TILE).Ok? && Decode(m, TILE).value.fcn == ALL_1 {
      var f := Decode(m, TILE).value;
      var t := Activate(s, m[0]);
      if |f.tile| <= t.limit {
        FinalizeKeeps(t.(last := Last(f.window, f.rcs, f.tile), staging := t.limit - |f.tile|));
      }
    }
  }

  lemma StepBounded(s: Session, e: Event)
    requires Valid(s)
    ensures var t := Step(s, e);
            var renewed := if Renews(s, e) then 1 else 0;
            && Negatives(t.sent) + Asks(t.session) <= Asks(s) + MAX_ATTEMPTS * renewed
            && Closings(t.sent) + Closes(t.session) <= Closes(s) + renewed
  {
    hide Finished, Parked, Marked;
    match e
    case Receive(m) =>
      if !s.delivered {
        InputAsks(s, m);
      } else {
        assert Valid(Step(s, e).session);
      }
    case Poll(room) =>
      if Next(s, room).out.Ok? {
        SentKind(s, room);
      }
    case Expiry =>
    case Release =>
  }

  /** However it is fed, a receiver sends at most MAX_ATTEMPTS negative ACKs and
      one closing message, a complete ACK or an abort, per session. */
  lemma {:induction false} RunBounded(s: Session, events: seq<Event>)
    requires Valid(s)
    ensures Negatives(Run(s, events).sent) <= Asks(s) + MAX_ATTEMPTS * Renewals(s, events)
    ensures Closings(Run(s, events).sent) <= Closes(s) + Renewals(s, events)
    decreases |events|
  {
    hide Step;
    hide Renews;
    if events == [] {
      assert Asks(s) >= 0;
    } else {
      StepBounded(s, events[0]);
      var a := Step(s, events[0]);
      RunBounded(a.session, events[1..]);
      NegativesConcat(a.sent, Run(a.session, events[1..]).sent);
    }
  }

  /** After an abort the context is a tombstone until it is released. */
  lemma {:induction false} Tombstone(s: Session, events: seq<Event>)
    requires Valid(s) && s.terminal
    requires Release !in events
    ensures Run(s, events) == Trace(s, [], [])
    decreases |events|
  {
    if events != [] {
      assert events[0] in events && events[0] != Release;
      assert Step(s, events[0]) == Trace(s, [], []);
      assert Release !in events[1..];
      Tombstone(s, events[1..]);
    }
  }

  // ------------------------------------------------------ packets that fit

  lemma InputLimit(s: Session, m: seq<byte>)
    requires Valid(s)
    ensures Input(s, m).session.limit == s.limit
  {
    hide Accept, Finished, Parked, Marked, Decode;
    if |m| >= 2 && !s.terminal {
      AcceptAsks(if s.delivered then Reset(s) else s, m, IsControl(m, AckRequest));
    }
  }

  lemma StepFits(s: Session, e: Event)
    requires Valid(s)
    ensures Step(s, e).session.limit == s.limit
    ensures forall packet :: packet in Step(s, e).packets ==> |packet| <= s.limit
  {
    hide Input, Parked, Marked;
    match e
    case Receive(m) => InputLimit(s, m);
    case Poll(room) =>
    case Expiry =>
    case Release =>
  }

  /** However it is fed, a receiver reports no packet longer than its limit. */
  lemma {:induction false} RunFits(s: Session, events: seq<Event>)
    requires Valid(s)
    ensures forall packet :: packet in Run(s, events).packets ==> |packet| <= s.limit
    decreases |events|
  {
    hide Step;
    if events != [] {
      StepFits(s, events[0]);
      RunFits(Step(s, events[0]).session, events[1..]);
    }
  }

  // ----------------------------------------------- tiles under the last one

  /** A marked tile reaches into the place of the All-1 tile. */
  ghost predicate Overlapped(s: Session) {
    s.last.Last? && exists o :: o in s.tiles && (o + 1) * TILE + |s.last.tile| > s.limit
  }

  lemma OverlappedFinalize(s: Session)
    requires Valid(s) && Overlapped(s)
    ensures Finalize(s).session.pending != CompleteDue && !Finalize(s).report.checked
    ensures Keeps(s, Finalize(s).session)
  {
    hide CheckPacket;
    FinalizeKeeps(s);
    var o :| o in s.tiles && (o + 1) * TILE + |s.last.tile| > s.limit;
    var w := s.last.window;
    var bits := Marked(s.tiles, w);
    var k := Span(bits, WINDOW);
    if (w == 1 ==> Marked(s.tiles, 0) == AckCodec.MASK) && forall b :: WINDOW - k <= b < WINDOW ==> b in bits {
      PrefixExact(s);
      assert o < w * WINDOW + k;
    }
  }

  /** The session can no longer deliver a packet. */
  ghost predicate Doomed(s: Session) {
    s.terminal || (Overlapped(s) && !s.delivered && s.pending != CompleteDue)
  }

  /** Later messages add tiles, repeat the All-1 or abort. */
  lemma DoomedAccept(s: Session, m: seq<byte>, request: bool)
    requires Valid(s) && Overlapped(s) && !s.delivered && !s.terminal && s.pending != CompleteDue
    requires |m| >= 2 && ValidRule(m[0])
    ensures Doomed(Accept(s, m, request).session)
  {
    hide Decode, Finalize, Marked, Valid, Overlapped;
    if Decode(m, TILE).Ok? {
      EncodeDecode(m, TILE);
    }
    var t := Activate(s, m[0]);
    LastInRange(s);
    OverlappedFinalize(s);
    if s.pending == Idle {
      ActivatedValid(s, m[0]);
      SameOverlap(s, t);
      OverlappedFinalize(t);
    }
    GrowingOverlap(s, Accept(s, m, request).session);
  }

  lemma ActivatedValid(s: Session, rule: byte)
    requires Valid(s) && !s.delivered && !s.terminal && s.pending == Idle && ValidRule(rule)
    ensures Valid(Activate(s, rule))
  {
    hide Parked;
  }

  lemma GrowingOverlap(s: Session, t: Session)
    ensures t.last == s.last && t.limit == s.limit && (forall o :: o in s.tiles ==> o in t.tiles) && Overlapped(s) ==>
      Overlapped(t)
  {
  }

  lemma DoomedStep(s: Session, e: Event)
    requires Valid(s) && Doomed(s) && e != Release
    ensures Doomed(Step(s, e).session) && Step(s, e).packets == []
  {
    hide Accept, Overlapped;
    match e
    case Receive(m) =>
      if |m| >= 2 && ValidRule(m[0]) && !s.terminal {
        DoomedAccept(s, m, IsControl(m, AckRequest));
      }
    case Poll(room) => DoomedPoll(s, room);
    case Expiry => SameOverlap(s, Expire(s).session);
  }

  lemma DoomedPoll(s: Session, room: nat)
    requires Valid(s) && Doomed(s)
    ensures Doomed(Next(s, room).session) && !Next(s, room).report.complete
  {
    hide Overlapped;
    SameOverlap(s, Next(s, room).session);
  }

  lemma SameOverlap(s: Session, t: Session)
    ensures t.last == s.last && t.limit == s.limit && t.tiles == s.tiles && Overlapped(s) ==> Overlapped(t)
  {
  }

  /** A finished packet fits, so an overlapped session is not a finished one. */
  lemma OverlappedIsDoomed(s: Session)
    requires Valid(s) && Overlapped(s)
    ensures Doomed(s)
  {
    if Finished(s) {
      var n: nat :| IsPrefix(s, n) && s.packet == Assemble(s.tiles, n) + s.last.tile;
      AssembleLength(s.tiles, n);
    }
  }

  lemma {:induction false} DoomedRun(s: Session, events: seq<Event>)
    requires Valid(s) && Doomed(s) && Release !in events
    ensures Run(s, events).packets == [] && Doomed(Run(s, events).session)
    decreases |events|
  {
    hide Step, Doomed;
    if events != [] {
      assert events[0] in events && Release !in events[1..];
      DoomedStep(s, events[0]);
      DoomedRun(Step(s, events[0]).session, events[1..]);
    }
  }

  /** Once a marked tile overlaps the All-1 tile, no packet is ever reported
      until the context is released. */
  lemma OverlappedNeverCompletes(s: Session, events: seq<Event>)
    requires Valid(s) && Overlapped(s) && Release !in events
    ensures Run(s, events).packets == [] && !Run(s, events).session.delivered
  {
    OverlappedIsDoomed(s);
    DoomedRun(s, events);
  }
}

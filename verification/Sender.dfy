/** The ACK-on-Error sender as transitions on values: what one call of
    schc_fragmenter_next, _input and _timeout does, and what every run of
    such calls keeps. The class in Fragmenter.dfy is proved against it. */
module Sender {
  import opened Bits
  import opened FragmentCodec
  import opened Tiles
  import AckCodec

  datatype Phase = Initial | Waiting | Retransmit | AckPending | Aborting | Silent
  datatype Status = Ready | Active | Succeeded | Aborted

  datatype Sender = Sender(
    packet: seq<byte>, rule: byte, count: nat, next: nat,
    missing: set<nat>, window: nat, position: nat,
    attempts: nat, phase: Phase, status: Status)

  type Outcome = Result<seq<byte>, Error>

  predicate Live(s: Sender) {
    s.status == Ready || s.status == Active
  }

  /** What holds of an initialised sender between any two calls. */
  predicate Valid(s: Sender) {
    && ValidRule(s.rule)
    && s.attempts <= MAX_ATTEMPTS
    && (Live(s) ==> ValidPacket(s.packet) && s.count == TileCount(|s.packet|))
    && match s.phase
       case Initial =>
         Live(s) && s.next < s.count && s.attempts == 0 && (s.status == Ready <==> s.next == 0)
       case Waiting => s.status == Active && s.attempts >= 1
       case Retransmit =>
         && s.status == Active && 1 <= s.attempts < MAX_ATTEMPTS
         && s.window <= FinalWindow(s.count) && s.missing <= Assigned(s.count, s.window)
         && s.position <= WINDOW
       case AckPending => s.status == Active && s.attempts >= 1
       case Aborting => s.status == Aborted
       case Silent => s.status == Succeeded || s.status == Aborted
  }

  function Init(rule: byte, packet: seq<byte>, limit: nat): (r: Result<Sender, Error>)
    ensures r.Ok? <==> ValidRule(rule) && 0 < limit <= MAX_PACKET && 0 < |packet| <= limit
    ensures r.Ok? ==> Valid(r.value) && r.value.packet == packet && r.value.status == Ready
  {
    if !ValidRule(rule) || limit == 0 || limit > MAX_PACKET then Err(InvalidArgument)
    else if |packet| == 0 then Err(TooShort)
    else if |packet| > limit then Err(BufferTooSmall)
    else Ok(Sender(packet, rule, TileCount(|packet|), 0, {}, 0, 0, 0, Initial, Ready))
  }

  function Terminal(s: Sender, status: Status, phase: Phase): (t: Sender) {
    s.(packet := [], count := 0, next := 0, missing := {}, window := 0, position := 0,
       status := status, phase := phase)
  }

  /** The first position at or after p whose tile is missing, else 63. */
  function NextMissing(missing: set<nat>, p: nat): (q: nat)
    requires p <= WINDOW
    ensures p <= q <= WINDOW
    ensures forall b :: WINDOW - 1 - q < b <= WINDOW - 1 - p ==> b !in missing
    ensures q < WINDOW ==> WINDOW - 1 - q in missing
    decreases WINDOW - p, missing
  {
    if p == WINDOW || WINDOW - 1 - p in missing then p else NextMissing(missing, p + 1)
  }

  function Next(s: Sender, room: nat): (r: (Sender, Outcome))
    requires Valid(s)
    ensures Valid(r.0)
  {
    match s.phase
    case Initial =>
      var wire := Frame(s.packet, s.rule, s.next);
      if room < |wire| then (s, Err(BufferTooSmall))
      else
        var t := s.(status := Active, next := s.next + 1);
        (if t.next == t.count then t.(attempts := t.attempts + 1, phase := Waiting) else t, Ok(wire))
    case Retransmit =>
      var p := NextMissing(s.missing, s.position);
      if p == WINDOW then AskForAck(s.(phase := AckPending), room)
      else
        AssignedTile(s.count, s.window, WINDOW - 1 - p);
        var i := TileAt(s.count, s.window, WINDOW - 1 - p);
        var wire := Frame(s.packet, s.rule, i);
        if room < |wire| then (s, Err(BufferTooSmall))
        else
          var t := s.(position := p + 1);
          (if i + 1 == s.count then t.(attempts := t.attempts + 1, phase := Waiting) else t, Ok(wire))
    case AckPending => AskForAck(s, room)
    case Aborting => EmitAbort(s, room)
    case Waiting => (s, Err(Done))
    case Silent => (s, Err(Done))
  }

  function AskForAck(s: Sender, room: nat): (r: (Sender, Outcome))
    requires Valid(s) && s.phase == AckPending
    ensures Valid(r.0)
  {
    if s.attempts >= MAX_ATTEMPTS then EmitAbort(Terminal(s, Aborted, Aborting), room)
    else
      FinalWindowFits(s);
      var wire := ControlWire(AckRequest, s.rule, FinalWindow(s.count));
      if room < |wire| then (s, Err(BufferTooSmall))
      else (s.(attempts := s.attempts + 1, phase := Waiting), Ok(wire))
  }

  function EmitAbort(s: Sender, room: nat): (r: (Sender, Outcome))
    requires Valid(s) && s.phase == Aborting
    ensures Valid(r.0)
  {
    var wire := ControlWire(SenderAbort, s.rule, 0);
    if room < |wire| then (s, Err(BufferTooSmall)) else (s.(phase := Silent), Ok(wire))
  }

  lemma FinalWindowFits(s: Sender)
    requires Valid(s) && Live(s)
    ensures FinalWindow(s.count) <= 1
  {
  }

  function Input(s: Sender, m: seq<byte>): (r: (Sender, Result<nat, Error>))
    requires Valid(s)
    ensures Valid(r.0)
  {
    if s.status != Active || |m| == 0 || m[0] != s.rule then (s, Ok(0))
    else if m == ControlWire(ReceiverAbort, s.rule, 0) then (Terminal(s, Aborted, Silent), Ok(0))
    else if s.phase != Waiting then (s, Ok(0))
    else
      var d := AckCodec.Decode(m, {}, false);
      if d.Err? then (s, Err(d.error)) else Acknowledged(s, m, d.value)
  }

  /** A decoded ACK in the waiting phase. */
  function Acknowledged(s: Sender, m: seq<byte>, a: AckCodec.Ack): (r: (Sender, Result<nat, Error>))
    requires Valid(s) && s.phase == Waiting
    ensures Valid(r.0)
  {
    var last := FinalWindow(s.count);
    if a.complete then
      (if a.window == last then Terminal(s, Succeeded, Silent) else s, Ok(0))
    else if a.window > last then (s, Ok(0))
    else
      var bits := Assigned(s.count, a.window);
      var d := AckCodec.Decode(m, bits, true);
      if d.Err? then (s, Err(d.error))
      else
        var missing := bits - d.value.bitmap;
        if missing == {} then
          (if a.window == last then Terminal(s, Aborted, Aborting) else s, Ok(0))
        else if s.attempts >= MAX_ATTEMPTS then (Terminal(s, Aborted, Aborting), Ok(0))
        else
          (s.(missing := missing, window := a.window, position := 0, phase := Retransmit), Ok(0))
  }

  function Timeout(s: Sender): (r: (Sender, Result<nat, Error>))
    requires Valid(s)
    ensures Valid(r.0)
  {
    if s.status != Active || s.phase != Waiting then (s, Err(InvalidArgument))
    else if s.attempts >= MAX_ATTEMPTS then (Terminal(s, Aborted, Aborting), Ok(0))
    else (s.(phase := AckPending), Ok(0))
  }

  // ----------------------------------------------------------------- runs

  datatype Event = Poll(room: nat) | Receive(message: seq<byte>) | Tick

  function Step(s: Sender, e: Event): (r: (Sender, seq<seq<byte>>))
    requires Valid(s)
    ensures Valid(r.0)
  {
    match e
    case Poll(room) =>
      var (t, out) := Next(s, room);
      (t, if out.Ok? then [out.value] else [])
    case Receive(m) => (Input(s, m).0, [])
    case Tick => (Timeout(s).0, [])
  }

  /** The state after a run of events, and the messages emitted on the way. */
  function Run(s: Sender, events: seq<Event>): (r: (Sender, seq<seq<byte>>))
    requires Valid(s)
    ensures Valid(r.0)
    decreases |events|
  {
    if events == [] then (s, [])
    else
      var (t, out) := Step(s, events[0]);
      var (u, rest) := Run(t, events[1..]);
      (u, out + rest)
  }

  /** An upper bound on the messages a sender can still emit. */
  function Budget(s: Sender): (n: int) {
    match s.phase
    case Initial => s.count - s.next + (WINDOW + 1) * (MAX_ATTEMPTS - 1) + 1
    case Waiting => (WINDOW + 1) * (MAX_ATTEMPTS - s.attempts) + 1
    case Retransmit => WINDOW - s.position + 1 + (WINDOW + 1) * (MAX_ATTEMPTS - s.attempts - 1) + 1
    case AckPending => 1 + (if s.attempts < MAX_ATTEMPTS then (WINDOW + 1) * (MAX_ATTEMPTS - s.attempts - 1) + 1 else 0)
    case Aborting => 1
    case Silent => 0
  }

  lemma BudgetStep(s: Sender, e: Event)
    requires Valid(s)
    ensures |Step(s, e).1| + Budget(Step(s, e).0) <= Budget(s)
  {
    match e
    case Poll(room) => BudgetNext(s, room);
    case Receive(m) => BudgetInput(s, m);
    case Tick =>
  }

  lemma BudgetNext(s: Sender, room: nat)
    requires Valid(s)
    ensures (if Next(s, room).1.Ok? then 1 else 0) + Budget(Next(s, room).0) <= Budget(s)
  {
  }

  lemma BudgetInput(s: Sender, m: seq<byte>)
    requires Valid(s)
    ensures Budget(Input(s, m).0) <= Budget(s)
  {
    hide AckCodec.Decode, Assigned;
    if s.phase == Waiting {
      var d := AckCodec.Decode(m, {}, false);
      if d.Ok? {
        assert Budget(Acknowledged(s, m, d.value).0) <= Budget(s);
      }
    }
  }

  /** Whatever is received and however timers fire, the budget is kept. */
  lemma {:induction false} RunBounded(s: Sender, events: seq<Event>)
    requires Valid(s)
    ensures |Run(s, events).1| <= Budget(s)
    ensures Run(s, events).0.attempts <= MAX_ATTEMPTS
    decreases |events|
  {
    if events == [] {
      assert Budget(s) >= 0;
    } else {
      BudgetStep(s, events[0]);
      RunBounded(Step(s, events[0]).0, events[1..]);
    }
  }

  /** So a sender fresh from Init emits at most 193 messages more than it has
      tiles. */
  lemma FreshBounded(rule: byte, packet: seq<byte>, limit: nat, s: Sender, events: seq<Event>)
    requires Init(rule, packet, limit) == Ok(s)
    ensures |Run(s, events).1| <= TileCount(|packet|) + 64 * 3 + 1
  {
    RunBounded(s, events);
  }

  /** Success and abort are final. */
  lemma {:induction false} RunTerminal(s: Sender, events: seq<Event>)
    requires Valid(s) && !Live(s)
    ensures Run(s, events).0.status == s.status
    ensures |Run(s, events).1| <= 1
    ensures forall m :: m in Run(s, events).1 ==> m == ControlWire(SenderAbort, s.rule, 0)
    decreases |events|
  {
    if events != [] {
      var (t, out) := Step(s, events[0]);
      RunTerminal(t, events[1..]);
      if out != [] {
        assert t.phase == Silent;
        RunSilent(t, events[1..]);
      }
    }
  }

  lemma {:induction false} RunSilent(s: Sender, events: seq<Event>)
    requires Valid(s) && s.phase == Silent
    ensures Run(s, events) == (s, [])
    decreases |events|
  {
    if events != [] {
      assert Step(s, events[0]) == (s, []) by {
        assert Next(s, 0) == (s, Err(Done));
      }
      RunSilent(s, events[1..]);
      var out, rest := Step(s, events[0]).1, Run(s, events[1..]).1;
      assert out + rest == [];
      assert Run(s, events) == (s, out + rest);
    }
  }
}

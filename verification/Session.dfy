/** The ACK-on-Error receiver as transitions on values. Accepted tiles are kept
    in a map by tile number and the All-1 tile beside them, so nothing here
    shares storage; `staging` is only the place the in-place receiver would
    park the All-1 tile at, because that place decides some aborts. The class
    in Reassembler.dfy is proved to behave exactly like this. */
module Session {
  import opened Bits
  import opened FragmentCodec
  import opened Tiles
  import AckCodec
  import Rcs

  datatype Pending = Idle | AckDue | CompleteDue | AbortDue

  datatype Last = NoLast | Last(window: nat, rcs: seq<byte>, tile: seq<byte>)

  datatype Session = Session(
    limit: nat, tiles: map<nat, seq<byte>>, last: Last, staging: nat, packet: seq<byte>,
    pending: Pending, ack: AckCodec.Ack, rule: byte, attempts: nat,
    active: bool, delivered: bool, terminal: bool)

  datatype Report = Report(length: nat, complete: bool, checked: bool, ok: bool, aborted: bool)

  const QUIET := Report(0, false, false, false, false)
  const NO_ACK := AckCodec.Ack(0, 0, false, {})

  datatype Reply = Reply(session: Session, report: Report, code: Result<nat, Error>)

  /** The bitmap of a window: bit b for tile window * WINDOW + 62 - b. */
  function Marked(tiles: map<nat, seq<byte>>, window: nat): (bits: set<nat>)
    ensures forall b :: b in bits <==> 0 <= b < WINDOW && window * WINDOW + WINDOW - 1 - b in tiles
  {
    set b | b in AckCodec.MASK && window * WINDOW + WINDOW - 1 - b in tiles
  }

  /** One more than the last marked position at or below p - 1, or 0. */
  function Span(bits: set<nat>, p: nat): (k: nat)
    requires p <= WINDOW
    ensures k <= p
    ensures k > 0 ==> WINDOW - k in bits
    ensures forall b :: WINDOW - p <= b < WINDOW - k ==> b !in bits
    decreases p, bits
  {
    if p == 0 || WINDOW - p in bits then p else Span(bits, p - 1)
  }

  predicate HasFirst(tiles: map<nat, seq<byte>>, n: nat) {
    forall i :: 0 <= i < n ==> i in tiles
  }

  /** The first n tiles, in order. */
  function Assemble(tiles: map<nat, seq<byte>>, n: nat): (bytes: seq<byte>)
    requires HasFirst(tiles, n)
  {
    if n == 0 then [] else Assemble(tiles, n - 1) + tiles[n - 1]
  }

  // ---------------------------------------------------------- invariant

  predicate ValidTiles(s: Session) {
    forall o :: o in s.tiles ==> o < MAX_TILES - 1 && |s.tiles[o]| == TILE && (o + 1) * TILE <= s.limit
  }

  ghost predicate ValidLast(s: Session) {
    s.last.Last? ==>
      && s.last.window <= 1 && |s.last.rcs| == 4 && 1 <= |s.last.tile| <= TILE
      && s.staging + |s.last.tile| <= s.limit
      && (forall o :: o in s.tiles ==> o < s.last.window * WINDOW + WINDOW - 1)
      && Parked(s.tiles, s.staging, s.limit - |s.last.tile|)
  }

  /** The All-1 tile is parked at the end of the buffer, or right behind the
      tiles, which are then exactly the ones before it. */
  ghost predicate Parked(tiles: map<nat, seq<byte>>, at: nat, tail: int) {
    at == tail || (at % TILE == 0 && forall o :: o in tiles <==> 0 <= o < at / TILE)
  }

  /** A finished packet is a run of accepted tiles and the All-1 tile, with
      the RCS that came with it, and no longer than the limit. */
  ghost predicate Finished(s: Session) {
    && s.last.Last?
    && Rcs.Check(s.packet) == s.last.rcs && |s.packet| <= s.limit
    && exists n: nat :: IsPrefix(s, n) && s.packet == Assemble(s.tiles, n) + s.last.tile
  }

  ghost predicate IsPrefix(s: Session, n: nat) {
    s.last.Last? && n >= s.last.window * WINDOW && forall o :: o in s.tiles <==> 0 <= o < n
  }

  ghost predicate ValidPending(s: Session) {
    && s.attempts <= MAX_ATTEMPTS
    && (s.active || s.pending != Idle || s.delivered ==> ValidRule(s.rule))
    && (s.pending == AckDue ==>
          s.attempts < MAX_ATTEMPTS && s.ack.rule == s.rule && s.ack.window <= 1 && !s.ack.complete)
    && (s.pending == CompleteDue ==>
          s.last.Last? && s.ack == AckCodec.Ack(s.rule, s.last.window, true, {}) && Finished(s))
    && (s.delivered ==> s.pending == Idle && !s.active && Finished(s))
    && (s.terminal ==> !s.active && !s.delivered && s.pending == Idle)
  }

  ghost predicate Valid(s: Session) {
    0 < s.limit <= MAX_PACKET && ValidTiles(s) && ValidLast(s) && ValidPending(s)
  }

  // -------------------------------------------------------- transitions

  function Init(limit: nat): (s: Session) {
    Session(limit, map[], NoLast, 0, [], Idle, NO_ACK, 0, 0, false, false, false)
  }

  function Reset(s: Session): (t: Session) {
    Init(s.limit)
  }

  function QueueAbort(s: Session, rule: byte): (t: Session) {
    s.(rule := rule, pending := AbortDue)
  }

  function Abort(s: Session, rule: byte): (r: Reply) {
    Reply(QueueAbort(s, rule), QUIET.(aborted := true), Ok(0))
  }

  function QueueAck(s: Session, window: nat, bitmap: set<nat>, complete: bool): (t: Session) {
    if s.attempts >= MAX_ATTEMPTS then QueueAbort(s, s.rule)
    else s.(ack := AckCodec.Ack(s.rule, window, complete, if complete then {} else bitmap),
            pending := if complete then CompleteDue else AckDue)
  }

  function Negative(s: Session, window: nat, bitmap: set<nat>, report: Report): (r: Reply) {
    var t := QueueAck(s, window, bitmap, false);
    Reply(t, report.(aborted := t.pending == AbortDue), Ok(0))
  }

  /** receiver_finalize: the All-1 tile is here; is the packet complete? */
  function Finalize(s: Session): (r: Reply)
    requires s.last.Last? && s.last.window <= 1
  {
    var w := s.last.window;
    if w == 1 && Marked(s.tiles, 0) != AckCodec.MASK then
      Negative(s, 0, Marked(s.tiles, 0), QUIET)
    else
      var bits := Marked(s.tiles, w);
      var k := Span(bits, WINDOW);
      if exists b :: WINDOW - k <= b < WINDOW && b !in bits then
        Negative(s, w, bits + {0}, QUIET)
      else
        var n := w * WINDOW + k;
        if n * TILE + |s.last.tile| > s.limit || n * TILE > s.staging then Abort(s, s.rule)
        else
          ContiguousHolds(s.tiles, w, k);
          CheckPacket(s.(staging := n * TILE), n, k)
  }

  /** The four ways receiver_finalize can go. */
  lemma FinalizeForms(s: Session)
    requires s.last.Last? && s.last.window <= 1
    ensures var w := s.last.window;
            var bits := Marked(s.tiles, w);
            var k := Span(bits, WINDOW);
            var n := w * WINDOW + k;
            if w == 1 && Marked(s.tiles, 0) != AckCodec.MASK then
              Finalize(s) == Negative(s, 0, Marked(s.tiles, 0), QUIET)
            else if exists b :: WINDOW - k <= b < WINDOW && b !in bits then
              Finalize(s) == Negative(s, w, bits + {0}, QUIET)
            else if n * TILE + |s.last.tile| > s.limit || n * TILE > s.staging then Finalize(s) == Abort(s, s.rule)
            else HasFirst(s.tiles, n) && Finalize(s) == CheckPacket(s.(staging := n * TILE), n, k)
  {
    hide Negative, CheckPacket, Abort, Span, Marked;
    var w := s.last.window;
    var bits := Marked(s.tiles, w);
    var k := Span(bits, WINDOW);
    if !(w == 1 && Marked(s.tiles, 0) != AckCodec.MASK) && !(exists b :: WINDOW - k <= b < WINDOW && b !in bits) {
      ContiguousHolds(s.tiles, w, k);
    }
  }

  lemma ContiguousHolds(tiles: map<nat, seq<byte>>, w: nat, k: nat)
    requires w <= 1 && k <= WINDOW && (w == 1 ==> Marked(tiles, 0) == AckCodec.MASK)
    requires forall b :: WINDOW - k <= b < WINDOW ==> b in Marked(tiles, w)
    ensures HasFirst(tiles, w * WINDOW + k)
  {
    forall i | 0 <= i < w * WINDOW + k
      ensures i in tiles
    {
      if i < WINDOW * w {
        assert WINDOW - 1 - i in Marked(tiles, 0);
      } else {
        assert WINDOW - 1 - (i - WINDOW * w) in Marked(tiles, w);
      }
    }
  }

  /** The RCS decision once the tiles are a contiguous run. */
  function CheckPacket(s: Session, n: nat, k: nat): (r: Reply)
    requires s.last.Last? && HasFirst(s.tiles, n)
  {
    var packet := Assemble(s.tiles, n) + s.last.tile;
    var checked := QUIET.(checked := true);
    if Rcs.Check(packet) == s.last.rcs then
      Reply(QueueAck(s.(packet := packet), s.last.window, {}, true), checked.(ok := true), Ok(0))
    else
      var bits := Marked(s.tiles, s.last.window);
      Negative(s, s.last.window, if k > 1 then bits else bits + {0}, checked)
  }

  predicate LastOk(s: Session) {
    s.last.Last? ==> s.last.window <= 1
  }

  predicate SameLast(s: Session, f: Fragment) {
    s.last == Last(f.window, f.rcs, f.tile)
  }

  function All1(s: Session, f: Fragment): (r: Reply)
    requires f.window <= 1 && LastOk(s)
  {
    if f.window * WINDOW + WINDOW - 1 in s.tiles then Abort(s, f.rule)
    else if s.last.Last? then
      if SameLast(s, f) then Finalize(s) else Abort(s, f.rule)
    else if f.window == 0 && Marked(s.tiles, 1) != {} then Abort(s, f.rule)
    else if |f.tile| + TILE * |s.tiles| > s.limit then Abort(s, f.rule)
    else Finalize(s.(last := Last(f.window, f.rcs, f.tile), staging := s.limit - |f.tile|))
  }

  function Regular(s: Session, f: Fragment): (r: Reply)
    requires f.fcn <= ALL_1 - 1
  {
    var o := f.window * WINDOW + WINDOW - 1 - f.fcn;
    var offset, end := o * TILE, (o + 1) * TILE;
    if s.last.Last? && (f.window > s.last.window || (f.window == s.last.window && f.fcn == 0)) then
      Abort(s, f.rule)
    else if end > s.limit then Abort(s, f.rule)
    else if s.last.Last? && offset < s.staging + |s.last.tile| && end > s.staging then
      var tail := s.limit - |s.last.tile|;
      if end > tail then Abort(s, f.rule) else Store(s.(staging := tail), f, o)
    else if s.last.Last? && end > s.staging then Abort(s, f.rule)
    else Store(s, f, o)
  }

  function Store(s: Session, f: Fragment, o: nat): (r: Reply) {
    if o !in s.tiles then Reply(s.(tiles := s.tiles[o := f.tile]), QUIET, Ok(0))
    else if s.tiles[o] != f.tile then Abort(s, f.rule)
    else Reply(s, QUIET, Ok(0))
  }

  /** A message while an answer is still queued. */
  function Repeated(s: Session, m: seq<byte>): (r: Reply)
    requires |m| >= 2 && LastOk(s)
  {
    if s.pending == AbortDue || !s.last.Last? then Reply(s, QUIET, Err(InvalidArgument))
    else
      var d := Decode(m, TILE);
      if d.Err? || d.value.fcn != ALL_1 then Reply(s, QUIET, Err(InvalidArgument))
      else if !SameLast(s, d.value) then Abort(s, m[0])
      else Finalize(s)
  }

  function Activate(s: Session, rule: byte): (t: Session) {
    if s.active then s else s.(active := true, rule := rule)
  }

  function AckRequested(s: Session, rule: byte): (r: Reply)
    requires LastOk(s)
  {
    var t := Activate(s, rule);
    var r := if t.last.Last? then Finalize(t)
             else
               var w := if Marked(t.tiles, 0) == AckCodec.MASK then 1 else 0;
               Negative(t, w, Marked(t.tiles, w), QUIET);
    r.(report := r.report.(aborted := r.session.pending == AbortDue))
  }

  function Accept(s: Session, m: seq<byte>, request: bool): (r: Reply)
    requires |m| >= 2 && LastOk(s)
  {
    if s.pending != Idle then Repeated(s, m)
    else if request then AckRequested(s, m[0])
    else
      var d := Decode(m, TILE);
      if d.Err? then Abort(s, m[0])
      else
        var t := Activate(s, m[0]);
        if d.value.fcn == ALL_1 then All1(t, d.value) else Regular(t, d.value)
  }

  predicate IsControl(m: seq<byte>, c: Control)
    requires |m| >= 2
  {
    m == ControlWire(c, m[0], m[1] / 128)
  }

  /** schc_reassembler_input */
  function Input(s: Session, m: seq<byte>): (r: Reply)
    requires LastOk(s)
  {
    if |m| == 0 then Reply(s, QUIET, Err(TooShort))
    else if !ValidRule(m[0]) then Reply(s, QUIET, Err(InvalidArgument))
    else if s.terminal then Reply(s, QUIET, Ok(0))
    else if (s.active || s.delivered || s.pending != Idle) && ValidRule(s.rule) && s.rule != m[0] then
      Reply(s, QUIET, Ok(0))
    else if |m| < 2 then Reply(s, QUIET, Err(TooShort))
    else if IsControl(m, SenderAbort) || IsControl(m, ReceiverAbort) then
      Reply(Reset(s).(terminal := true), QUIET.(aborted := true), Ok(0))
    else
      var request := IsControl(m, AckRequest);
      if !s.delivered then Accept(s, m, request)
      else if !request && Decode(m, TILE).Err? then Reply(s, QUIET, Err(Decode(m, TILE).error))
      else Accept(Reset(s), m, request)
  }

  datatype Emission = Emission(session: Session, report: Report, out: Result<seq<byte>, Error>)

  /** schc_reassembler_next into a buffer of the given size */
  function Next(s: Session, room: nat): (r: Emission)
    requires Valid(s)
  {
    if s.pending == Idle then Emission(s, QUIET, Err(Done))
    else
      var wire := if s.pending == AbortDue then ControlWire(ReceiverAbort, s.rule, 0)
                  else AckCodec.Encode(s.ack);
      if room < |wire| then Emission(s, QUIET, Err(BufferTooSmall))
      else if s.pending == AbortDue then
        Emission(Reset(s).(terminal := true), QUIET.(aborted := true), Ok(wire))
      else if s.pending == CompleteDue then
        Emission(s.(pending := Idle, active := false, delivered := true),
                 Report(|s.packet|, true, true, true, false), Ok(wire))
      else Emission(s.(pending := Idle, attempts := s.attempts + 1), QUIET, Ok(wire))
  }

  function Expire(s: Session): (r: Reply) {
    if s.delivered || (!s.active && s.pending == Idle) || s.pending == CompleteDue then
      Reply(s, QUIET, Err(Done))
    else Reply(QueueAbort(s, s.rule), QUIET, Ok(0))
  }
}

/** The in-place receiver: schc_reassembler_*. One buffer holds the tiles and
    the parked All-1 tile; two bitmaps say which tiles are there. Its methods
    are proved to do to `model` what the value-level receiver does. */
module Reassembler {
  import opened Bits
  import opened FragmentCodec
  import opened Tiles
  import opened Session
  import S = Session
  import opened SessionInvariant
  import opened PacketBuffer
  import AckCodec
  import Rcs

  class Reassembler {
    const packet: array<byte>
    const limit: nat
    const decodeTile: array<byte>
    var finalLen: nat
    var finalStaging: nat
    var completeLen: nat
    var bitmap0: set<nat>
    var bitmap1: set<nat>
    var rcs: seq<byte>
    var pendingAck: AckCodec.Ack
    var rule: byte
    var finalWindow: nat
    var attempts: nat
    var pending: Pending
    var active: bool
    var haveAll1: bool
    var delivered: bool
    var terminal: bool
    ghost var tiles: map<nat, seq<byte>>
    ghost var lastTile: seq<byte>
    ghost var whole: seq<byte>

    /** The value-level receiver this object stands for. */
    ghost function Model(): (s: Session)
      reads this
    {
      Session(limit, tiles, if haveAll1 then Last(finalWindow, rcs, lastTile) else NoLast,
              finalStaging, whole, pending, pendingAck, rule, attempts, active, delivered, terminal)
    }

    ghost predicate Shape()
      reads this
    {
      && packet != decodeTile && decodeTile.Length == TILE
      && 0 < limit <= packet.Length && limit <= MAX_PACKET
      && bitmap0 == Marked(tiles, 0) && bitmap1 == Marked(tiles, 1)
      && finalLen == LastLength(Model())
    }

    /** What holds while an answer is being chosen. */
    ghost predicate Tracks()
      reads this, packet
    {
      Shape() && Stored(packet[..], Model())
    }

    /** A finished packet is the front of the buffer. */
    ghost predicate Agrees()
      reads this, packet
    {
      Tracks() &&
      (pending == CompleteDue || delivered ==>
         completeLen <= limit && packet[..completeLen] == whole)
    }

    ghost predicate Valid()
      reads this, packet
    {
      Agrees() && S.Valid(Model())
    }

    constructor (packet: array<byte>, limit: nat)
      requires 0 < limit <= packet.Length && limit <= MAX_PACKET
      ensures Valid() && Model() == Init(limit)
      ensures this.packet == packet && this.limit == limit && fresh(decodeTile)
    {
      this.packet := packet;
      this.limit := limit;
      decodeTile := new byte[TILE];
      finalLen, finalStaging, completeLen := 0, 0, 0;
      bitmap0, bitmap1 := {}, {};
      rcs := [0, 0, 0, 0];
      pendingAck := NO_ACK;
      rule, finalWindow, attempts := 0, 0, 0;
      pending := Idle;
      active, haveAll1, delivered, terminal := false, false, false, false;
      tiles, lastTile, whole := map[], [], [];
      new;
      InitValid(limit);
    }

    /** schc_reassembler_init */
    static method Create(packet: array<byte>, limit: nat) returns (r: Result<Reassembler, Error>)
      ensures r.Ok? <==> 0 < limit <= packet.Length && limit <= MAX_PACKET
      ensures r.Err? ==> r.error == InvalidArgument
      ensures r.Ok? ==> fresh(r.value) && r.value.packet == packet
      ensures r.Ok? ==> r.value.Valid() && r.value.Model() == Init(limit)
    {
      if limit == 0 || limit > packet.Length || limit > MAX_PACKET {
        return Err(InvalidArgument);
      }
      var o := new Reassembler(packet, limit);
      return Ok(o);
    }

    /** receiver_reset; schc_reassembler_release is this call. */
    method Release()
      requires Shape()
      modifies this
      ensures Valid() && Model() == Init(limit)
    {
      hide S.Valid;
      hide Marked;
      hide TilesAt;
      InitFields(packet[..], limit);
      InitValid(limit);
      ClearTransfer();
      ClearAnswer();
    }

    method ClearTransfer()
      modifies this`finalLen, this`finalStaging, this`completeLen, this`bitmap0, this`bitmap1
      modifies this`rcs, this`finalWindow, this`haveAll1, this`tiles, this`lastTile, this`whole
      ensures finalLen == 0 && finalStaging == 0 && bitmap0 == {} && bitmap1 == {}
      ensures !haveAll1 && tiles == map[] && whole == []
    {
      finalLen, finalStaging, completeLen := 0, 0, 0;
      bitmap0, bitmap1 := {}, {};
      rcs := [0, 0, 0, 0];
      finalWindow := 0;
      haveAll1 := false;
      tiles, lastTile, whole := map[], [], [];
    }

    method ClearAnswer()
      modifies this`pendingAck, this`rule, this`attempts, this`pending
      modifies this`active, this`delivered, this`terminal
      ensures pendingAck == NO_ACK && rule == 0 && attempts == 0 && pending == Idle
      ensures !active && !delivered && !terminal
    {
      pendingAck := NO_ACK;
      rule, attempts := 0, 0;
      pending := Idle;
      active, delivered, terminal := false, false, false;
    }

    method QueueAbort(rule: byte)
      requires Tracks() && !delivered
      modifies this`rule, this`pending
      ensures Agrees() && Model() == S.QueueAbort(old(Model()), rule)
    {
      this.rule := rule;
      pending := AbortDue;
    }

    method QueueAck(window: nat, bitmap: set<nat>, complete: bool)
      requires Tracks() && !delivered
      requires complete ==> completeLen <= limit && packet[..completeLen] == whole
      modifies this`rule, this`pending, this`pendingAck
      ensures Agrees() && Model() == S.QueueAck(old(Model()), window, bitmap, complete)
    {
      if attempts >= MAX_ATTEMPTS {
        QueueAbort(rule);
        return;
      }
      pendingAck := AckCodec.Ack(rule, window, complete, if complete then {} else bitmap);
      pending := if complete then CompleteDue else AckDue;
    }

    method QueueNegative(window: nat, bitmap: set<nat>, soFar: Report) returns (report: Report)
      requires Tracks() && !delivered
      modifies this`rule, this`pending, this`pendingAck
      ensures Agrees() && Model() == S.Negative(old(Model()), window, bitmap, soFar).session
      ensures report == S.Negative(old(Model()), window, bitmap, soFar).report
    {
      QueueAck(window, bitmap, false);
      report := soFar.(aborted := pending == AbortDue);
    }

    /** memcpy into the packet buffer, below the limit */
    method CopyIn(at: nat, x: seq<byte>)
      requires at + |x| <= limit <= packet.Length
      modifies packet
      ensures packet[limit..] == old(packet[limit..])
      ensures packet[..] == Splice(old(packet[..]), at, x)
    {
      forall i | 0 <= i < |x| {
        packet[at + i] := x[i];
      }
    }

    /** memmove within the packet buffer, below the limit */
    method MoveWithin(to: nat, from: nat, length: nat)
      requires to + length <= limit <= packet.Length && from + length <= packet.Length
      modifies packet
      ensures packet[limit..] == old(packet[limit..])
      ensures packet[..] == Splice(old(packet[..]), to, old(packet[..])[from..from + length])
    {
      forall i | 0 <= i < length {
        packet[to + i] := packet[from + i];
      }
    }

    /** receiver_finalize */
    method Finalize() returns (report: Report)
      requires Valid() && haveAll1 && Open(Model())
      modifies this, packet
      ensures packet[limit..] == old(packet[limit..])
      ensures Valid() && Model() == S.Finalize(old(Model())).session
      ensures report == S.Finalize(old(Model())).report
    {
      hide S.Finalize, S.Valid, Stored, Marked, Span, CheckPacket, Negative, Abort;
      LastInRange(Model());
      if finalWindow == 1 && bitmap0 != AckCodec.MASK {
        FinalizeValid(Model());
        FinalizeCases(Model());
        report := QueueNegative(0, bitmap0, QUIET);
        return;
      }
      report := FinalizeWindow();
    }

    /** receiver_finalize once every window before the last is full. */
    method FinalizeWindow() returns (report: Report)
      requires Valid() && haveAll1 && Open(Model()) && finalWindow <= 1
      requires finalWindow == 1 ==> bitmap0 == AckCodec.MASK
      modifies this, packet
      ensures packet[limit..] == old(packet[limit..])
      ensures Valid() && Model() == S.Finalize(old(Model())).session
      ensures report == S.Finalize(old(Model())).report
    {
      hide S.Finalize, S.Valid, Stored, Marked, Span, CheckPacket, Negative, Abort;
      var bitmap := if finalWindow == 0 then bitmap0 else bitmap1;
      var count := RegularCount(bitmap);
      var required := set b | b in AckCodec.MASK && WINDOW - count <= b;
      if !(required <= bitmap) {
        FinalizeValid(Model());
        FinalizeCases(Model());
        report := QueueNegative(finalWindow, bitmap + {0}, QUIET);
        return;
      }
      report := FinalizeRun(bitmap, required, count);
    }

    /** And once the tiles of the last window have no gap. */
    method FinalizeRun(bitmap: set<nat>, required: set<nat>, count: nat) returns (report: Report)
      requires Valid() && haveAll1 && Open(Model()) && finalWindow <= 1
      requires finalWindow == 1 ==> bitmap0 == AckCodec.MASK
      requires bitmap == Marked(tiles, finalWindow) && count == Span(bitmap, WINDOW)
      requires required <= bitmap && required == set b | b in AckCodec.MASK && WINDOW - count <= b
      modifies this, packet
      ensures packet[limit..] == old(packet[limit..])
      ensures Valid() && Model() == S.Finalize(old(Model())).session
      ensures report == S.Finalize(old(Model())).report
    {
      hide S.Finalize, S.Valid, Stored, Marked, Span, CheckPacket, Negative;
      FinalizeValid(Model());
      FinalizeCases(Model());
      var offset := (finalWindow * WINDOW + count) * TILE;
      if offset + finalLen > limit || offset > finalStaging {
        QueueAbort(rule);
        return QUIET.(aborted := true);
      }
      ContiguousHolds(tiles, finalWindow, count);
      PrefixExact(Model());
      report := FinishCheck(finalWindow * WINDOW + count, bitmap, required, count);
    }

    /** The tail of receiver_finalize, once the tiles are contiguous. */
    method FinishCheck(n: nat, bitmap: set<nat>, required: set<nat>, count: nat)
      returns (report: Report)
      requires Valid() && haveAll1 && !delivered
      requires IsPrefix(Model(), n) && HasFirst(tiles, n) && n * TILE + finalLen <= limit
      requires bitmap == Marked(tiles, finalWindow) && count == Span(bitmap, WINDOW)
      requires required <= bitmap && required == set b | b in AckCodec.MASK && WINDOW - count <= b
      modifies this, packet
      ensures packet[limit..] == old(packet[limit..])
      ensures Agrees()
      ensures var r := S.CheckPacket(old(Model()).(staging := n * TILE), n, count);
              Model() == r.session && report == r.report
    {
      hide S.Valid;
      hide TilesAt;
      hide Assemble;
      hide IsPrefix;
      hide HasFirst;
      hide Marked;
      hide Span;
      hide Rcs.Check;
      hide CheckPacket;
      hide Negative;
      CheckPacketCases(Model().(staging := n * TILE), n, count);
      AdvanceLast(n);
      report := QUIET.(checked := true);
      var expected := Rcs.ComputeRcs(packet[..n * TILE + finalLen]);
      if expected == rcs {
        MarkComplete(n * TILE + finalLen);
        report := report.(ok := true);
      } else {
        var bits := MismatchBitmap(bitmap, required, count);
        report := QueueNegative(finalWindow, bits, report);
      }
    }

    method MarkComplete(length: nat)
      requires Tracks() && !delivered && length <= limit
      modifies this`completeLen, this`whole, this`rule, this`pending, this`pendingAck
      ensures Agrees()
      ensures Model() ==
              S.QueueAck(old(Model()).(packet := packet[..length]), finalWindow, {}, true)
    {
      hide TilesAt;
      hide LastAt;
      hide Marked;
      completeLen := length;
      whole := packet[..completeLen];
      QueueAck(finalWindow, {}, true);
    }

    /** The memmove of receiver_finalize. */
    method AdvanceLast(n: nat)
      requires Valid() && haveAll1
      requires IsPrefix(Model(), n) && HasFirst(tiles, n) && n * TILE + finalLen <= limit
      modifies packet, this`finalStaging
      ensures packet[limit..] == old(packet[limit..])
      ensures Tracks() && Model() == old(Model()).(staging := n * TILE)
      ensures packet[..n * TILE + finalLen] == Assemble(tiles, n) + lastTile
    {
      hide TilesAt, Marked, Finished, IsPrefix, HasFirst, Assemble, Splice, S.Valid;
      assert packet[..][finalStaging..finalStaging + finalLen] == lastTile;
      Advance(packet[..], Model(), n);
      MoveWithin(n * TILE, finalStaging, finalLen);
      finalStaging := n * TILE;
    }

    /** Is this All-1 fragment the one already held? */
    method SameAll1(f: Fragment) returns (same: bool)
      requires Tracks() && haveAll1
      ensures same == SameLast(Model(), f)
    {
      same := finalWindow == f.window && finalLen == |f.tile| && rcs == f.rcs &&
              packet[finalStaging..finalStaging + finalLen] == f.tile;
    }

    /** The All-1 branch of schc_reassembler_input. */
    method InputAll1(f: Fragment) returns (report: Report)
      requires Valid() && Open(Model()) && pending == Idle && active && f.rule == rule
      requires ValidFragment(f) && f.fcn == ALL_1
      modifies this, packet
      ensures packet[limit..] == old(packet[limit..])
      ensures Valid() && Model() == S.All1(old(Model()), f).session
      ensures report == S.All1(old(Model()), f).report
    {
      hide S.Finalize;
      hide S.Valid;
      hide Stored;
      hide Marked;
      LastInRange(Model());
      All1Valid(Model(), f);
      var bitmap := if f.window == 0 then bitmap0 else bitmap1;
      if 0 in bitmap {
        QueueAbort(f.rule);
        return QUIET.(aborted := true);
      }
      if haveAll1 {
        var same := SameAll1(f);
        if !same {
          QueueAbort(f.rule);
          return QUIET.(aborted := true);
        }
        report := Finalize();
        return;
      }
      if f.window == 0 && bitmap1 != {} {
        QueueAbort(f.rule);
        return QUIET.(aborted := true);
      }
      var retained := Retained(|f.tile|);
      if retained > limit {
        QueueAbort(f.rule);
        return QUIET.(aborted := true);
      }
      StageLast(f);
      report := Finalize();
    }

    /** The bytes the All-1 tile and all marked tiles take. */
    method Retained(length: nat) returns (retained: nat)
      requires Valid()
      ensures retained == length + TILE * |tiles|
    {
      var n0 := PopulationCount(bitmap0);
      var n1 := PopulationCount(bitmap1);
      MarkedSizes(tiles);
      retained := length + n0 * TILE + n1 * TILE;
    }

    /** The first All-1 tile goes to the end of the buffer. */
    method StageLast(f: Fragment)
      requires Valid() && Open(Model()) && !haveAll1 && pending == Idle && !delivered
      requires ValidFragment(f) && f.fcn == ALL_1 && |f.tile| <= limit
      requires f.window * WINDOW + WINDOW - 1 !in tiles && (f.window == 0 ==> Marked(tiles, 1) == {})
      modifies this, packet
      ensures packet[limit..] == old(packet[limit..])
      ensures Valid() && haveAll1
      ensures Model() == old(Model()).(last := Last(f.window, f.rcs, f.tile),
                                       staging := limit - |f.tile|)
    {
      hide S.Valid;
      hide Open;
      hide TilesAt;
      hide LastAt;
      hide Splice;
      hide Marked;
      Staging(packet[..], Model(), f);
      CopyIn(limit - |f.tile|, f.tile);
      SetLast(f);
    }

    method SetLast(f: Fragment)
      requires |f.tile| <= limit
      modifies this`finalStaging, this`finalLen, this`finalWindow, this`rcs, this`haveAll1
      modifies this`lastTile
      ensures finalStaging == limit - |f.tile| && finalLen == |f.tile|
      ensures finalWindow == f.window && rcs == f.rcs && haveAll1 && lastTile == f.tile
    {
      finalStaging := limit - |f.tile|;
      finalLen := |f.tile|;
      finalWindow := f.window;
      rcs := f.rcs;
      haveAll1 := true;
      lastTile := f.tile;
    }

    /** The regular-fragment branch of schc_reassembler_input. */
    method InputRegular(f: Fragment) returns (report: Report)
      requires Valid() && Open(Model()) && pending == Idle && active && f.rule == rule
      requires ValidFragment(f) && f.fcn != ALL_1
      modifies this, packet
      ensures packet[limit..] == old(packet[limit..])
      ensures Valid() && Model() == S.Regular(old(Model()), f).session
      ensures report == S.Regular(old(Model()), f).report
    {
      hide S.Valid;
      hide Stored;
      hide S.Store;
      RegularValid(Model(), f);
      LastBounds(Model());
      if haveAll1 && (f.window > finalWindow || (f.window == finalWindow && f.fcn == 0)) {
        QueueAbort(f.rule);
        return QUIET.(aborted := true);
      }
      var ordinal := f.window * WINDOW + WINDOW - 1 - f.fcn;
      var offset := ordinal * TILE;
      var end := offset + TILE;
      if end > limit {
        QueueAbort(f.rule);
        return QUIET.(aborted := true);
      }
      if haveAll1 && offset < finalStaging + finalLen && end > finalStaging {
        var tail := limit - finalLen;
        if end > tail {
          QueueAbort(f.rule);
          return QUIET.(aborted := true);
        }
        RelocateLast(tail);
      }
      if haveAll1 && end > finalStaging {
        QueueAbort(f.rule);
        return QUIET.(aborted := true);
      }
      report := StoreTile(f, ordinal);
    }

    /** The All-1 tile makes way for a regular tile. */
    method RelocateLast(tail: nat)
      requires Tracks() && S.Valid(Model()) && haveAll1 && tail == limit - finalLen
      modifies packet, this`finalStaging
      ensures packet[limit..] == old(packet[limit..])
      ensures Tracks() && Model() == old(Model()).(staging := tail)
    {
      hide S.Valid;
      hide TilesAt;
      hide Splice;
      hide Marked;
      LastBounds(Model());
      assert packet[..][finalStaging..finalStaging + finalLen] == lastTile;
      Relocate(packet[..], Model());
      MoveWithin(tail, finalStaging, finalLen);
      finalStaging := tail;
    }

    method StoreTile(f: Fragment, ordinal: nat) returns (report: Report)
      requires Tracks() && !delivered && pending == Idle && ValidTiles(Model())
      requires |f.tile| == TILE && (ordinal + 1) * TILE <= limit
      requires f.window <= 1 && f.fcn <= ALL_1 - 1 && ordinal == f.window * WINDOW + WINDOW - 1 - f.fcn
      requires haveAll1 ==> (ordinal + 1) * TILE <= finalStaging && finalStaging + finalLen <= limit
      modifies this, packet
      ensures packet[limit..] == old(packet[limit..])
      ensures Agrees() && Model() == S.Store(old(Model()), f, ordinal).session
      ensures report == S.Store(old(Model()), f, ordinal).report
    {
      var bitmap := if f.window == 0 then bitmap0 else bitmap1;
      var offset := ordinal * TILE;
      if f.fcn in bitmap {
        assert packet[..][offset..offset + TILE] == tiles[ordinal];
        if packet[offset..offset + TILE] != f.tile {
          QueueAbort(f.rule);
          return QUIET.(aborted := true);
        }
        return QUIET;
      }
      WriteTile(f, ordinal);
      return QUIET;
    }

    method WriteTile(f: Fragment, ordinal: nat)
      requires Tracks() && !delivered && pending == Idle
      requires |f.tile| == TILE && (ordinal + 1) * TILE <= limit && ordinal !in tiles
      requires f.window <= 1 && f.fcn <= ALL_1 - 1 && ordinal == f.window * WINDOW + WINDOW - 1 - f.fcn
      requires haveAll1 ==> (ordinal + 1) * TILE <= finalStaging
      modifies packet, this`bitmap0, this`bitmap1, this`tiles
      ensures packet[limit..] == old(packet[limit..])
      ensures Agrees()
      ensures Model() == old(Model()).(tiles := old(tiles)[ordinal := f.tile])
    {
      hide TilesAt;
      hide LastAt;
      hide Splice;
      hide Marked;
      PutTile(packet[..], Model(), ordinal, f.tile);
      MarkedWith(tiles, ordinal, f.tile, 0);
      MarkedWith(tiles, ordinal, f.tile, 1);
      assert ordinal / WINDOW == f.window && WINDOW - 1 - ordinal % WINDOW == f.fcn;
      CopyIn(ordinal * TILE, f.tile);
      if f.window == 0 {
        bitmap0 := bitmap0 + {f.fcn};
      } else {
        bitmap1 := bitmap1 + {f.fcn};
      }
      tiles := tiles[ordinal := f.tile];
    }

    /** A message that comes while an answer is queued. */
    method InputRepeated(m: seq<byte>) returns (report: Report, code: Result<nat, Error>)
      requires Valid() && Open(Model()) && pending != Idle && |m| >= 2 && m[0] == rule
      modifies this, packet, decodeTile
      ensures packet[limit..] == old(packet[limit..])
      ensures Valid() && Model() == S.Repeated(old(Model()), m).session
      ensures report == S.Repeated(old(Model()), m).report
      ensures code == S.Repeated(old(Model()), m).code
    {
      hide S.Finalize;
      hide S.Valid;
      hide Stored;
      LastInRange(Model());
      RepeatedValid(Model(), m);
      if pending == AbortDue || !haveAll1 {
        return QUIET, Err(InvalidArgument);
      }
      var d := FragmentDecode(m, decodeTile);
      if d.Err? || d.value.fcn != ALL_1 {
        return QUIET, Err(InvalidArgument);
      }
      var same := SameAll1(d.value);
      if !same {
        QueueAbort(m[0]);
        return QUIET.(aborted := true), Ok(0);
      }
      report := Finalize();
      code := Ok(0);
      FinalizeCode(old(Model()));
    }

    /** An ACK REQ. */
    method InputAckRequest(rule: byte) returns (report: Report)
      requires Valid() && !delivered && !terminal && pending == Idle && ValidRule(rule)
      modifies this, packet
      ensures packet[limit..] == old(packet[limit..])
      ensures Valid() && Model() == S.AckRequested(old(Model()), rule).session
      ensures report == S.AckRequested(old(Model()), rule).report
    {
      hide S.Finalize;
      hide Stored;
      hide Marked;
      hide Finished;
      LastInRange(Model());
      AckRequestedValid(Model(), rule);
      MakeActive(rule);
      if haveAll1 {
        report := Finalize();
      } else {
        var window := if bitmap0 == AckCodec.MASK then 1 else 0;
        QueueAck(window, if window == 0 then bitmap0 else bitmap1, false);
        report := QUIET;
      }
      report := report.(aborted := pending == AbortDue);
    }

    method MakeActive(rule: byte)
      requires Valid() && !delivered && !terminal && pending == Idle && ValidRule(rule)
      modifies this`active, this`rule
      ensures Valid() && Open(Model()) && active && Model() == S.Activate(old(Model()), rule)
    {
      if !active {
        active := true;
        this.rule := rule;
      }
    }

    /** schc_reassembler_input behind the control-message tests. */
    method InputAccept(m: seq<byte>, request: bool)
      returns (report: Report, code: Result<nat, Error>)
      requires Valid() && !delivered && !terminal && |m| >= 2 && ValidRule(m[0])
      requires active || pending != Idle ==> rule == m[0]
      modifies this, packet, decodeTile
      ensures packet[limit..] == old(packet[limit..])
      ensures Valid() && Model() == S.Accept(old(Model()), m, request).session
      ensures report == S.Accept(old(Model()), m, request).report
      ensures code == S.Accept(old(Model()), m, request).code
    {
      hide S.Repeated;
      hide S.AckRequested;
      hide S.All1;
      hide S.Regular;
      hide Stored;
      hide Finished;
      hide Decode;
      hide Marked;
      AcceptValid(Model(), m, request);
      if pending != Idle {
        report, code := InputRepeated(m);
        return;
      }
      AcceptCode(Model(), m, request);
      code := Ok(0);
      if request {
        report := InputAckRequest(m[0]);
        return;
      }
      var d := FragmentDecode(m, decodeTile);
      if d.Err? {
        QueueAbort(m[0]);
        report := QUIET.(aborted := true);
        return;
      }
      DecodedRule(m);
      MakeActive(m[0]);
      if d.value.fcn == ALL_1 {
        report := InputAll1(d.value);
      } else {
        report := InputRegular(d.value);
      }
    }

    /** schc_reassembler_input: the object does to its model what the
        value-level receiver does, for every byte string. */
    method Input(m: seq<byte>) returns (report: Report, code: Result<nat, Error>)
      requires Valid()
      modifies this, packet, decodeTile
      ensures packet[limit..] == old(packet[limit..])
      ensures Valid() && Model() == S.Input(old(Model()), m).session
      ensures report == S.Input(old(Model()), m).report
      ensures code == S.Input(old(Model()), m).code
    {
      hide S.Accept;
      hide Stored;
      hide Finished;
      hide Decode;
      hide Marked;
      LastInRange(Model());
      if |m| == 0 { return QUIET, Err(TooShort); }
      if !ValidRule(m[0]) { return QUIET, Err(InvalidArgument); }
      if terminal { return QUIET, Ok(0); }
      var context := active || delivered || pending != Idle;
      if context && ValidRule(rule) && rule != m[0] { return QUIET, Ok(0); }
      if |m| < 2 { return QUIET, Err(TooShort); }
      if IsControl(m, SenderAbort) || IsControl(m, ReceiverAbort) {
        Bury();
        return QUIET.(aborted := true), Ok(0);
      }
      var request := IsControl(m, AckRequest);
      if delivered {
        if !request {
          var probe := FragmentDecode(m, decodeTile);
          if probe.Err? { return QUIET, Err(probe.error); }
        }
        Release();
      }
      report, code := InputAccept(m, request);
    }

    /** Reset and leave a tombstone. */
    method Bury()
      requires Shape()
      modifies this
      ensures Valid() && Model() == Init(limit).(terminal := true)
    {
      hide TilesAt;
      hide Finished;
      hide Marked;
      Release();
      InitFields(packet[..], limit);
      terminal := true;
    }

    /** schc_reassembler_next: writes the queued answer; a completed packet is
        then the front of the buffer. */
    method Next(out: array<byte>) returns (report: Report, r: Result<nat, Error>)
      requires Valid() && out != packet
      modifies this, out
      ensures Valid() && Model() == S.Next(old(Model()), out.Length).session
      ensures report == S.Next(old(Model()), out.Length).report
      ensures r.Err? ==> S.Next(old(Model()), out.Length).out == Err(r.error)
      ensures r.Ok? ==> r.value <= out.Length &&
                        S.Next(old(Model()), out.Length).out == Ok(out[..r.value])
      ensures report.complete ==> report.length == completeLen <= limit &&
                                  packet[..completeLen] == old(whole)
      ensures packet[..] == old(packet[..])
    {
      hide Stored, Marked, Finished, AckCodec.Encode, ValidTiles, ValidLast;
      NextValid(Model(), out.Length);
      if pending == Idle { return QUIET, Err(Done); }
      r := WriteAnswer(out);
      if r.Err? { return QUIET, r; }
      if pending == AbortDue {
        Bury();
        report := QUIET.(aborted := true);
      } else if pending == CompleteDue {
        Deliver();
        report := Report(completeLen, true, true, true, false);
      } else {
        CountAttempt();
        report := QUIET;
      }
    }

    method Deliver()
      requires Agrees() && pending == CompleteDue
      modifies this`pending, this`active, this`delivered
      ensures Agrees() && Model() == old(Model()).(pending := Idle, active := false, delivered := true)
    {
      pending, active, delivered := Idle, false, true;
    }

    method CountAttempt()
      requires Agrees() && !delivered
      modifies this`pending, this`attempts
      ensures Agrees() && Model() == old(Model()).(pending := Idle, attempts := old(attempts) + 1)
    {
      pending, attempts := Idle, attempts + 1;
    }

    method WriteAnswer(out: array<byte>) returns (r: Result<nat, Error>)
      requires Valid() && out != packet && pending != Idle
      modifies out
      ensures var wire := if pending == AbortDue then ControlWire(ReceiverAbort, rule, 0)
                          else AckCodec.Encode(pendingAck);
              && r == (if out.Length < |wire| then Err(BufferTooSmall) else Ok(|wire|))
              && (r.Ok? ==> out[..r.value] == wire)
    {
      if pending == AbortDue {
        r := ControlEncode(ReceiverAbort, rule, 0, out);
      } else {
        r := AckCodec.AckEncode(pendingAck, out);
      }
    }

    /** schc_reassembler_packet */
    method Packet() returns (r: Result<seq<byte>, Error>)
      requires Valid()
      ensures r == if delivered then Ok(Model().packet) else Err(Done)
    {
      if !delivered { return Err(Done); }
      return Ok(packet[..completeLen]);
    }

    /** schc_reassembler_expire */
    method Expire() returns (code: Result<nat, Error>)
      requires Valid()
      modifies this
      ensures Valid() && Model() == S.Expire(old(Model())).session
      ensures code == S.Expire(old(Model())).code
    {
      hide TilesAt;
      hide LastAt;
      hide Finished;
      ExpireValid(Model());
      if delivered || (!active && pending == Idle) { return Err(Done); }
      if pending == CompleteDue { return Err(Done); }
      QueueAbort(rule);
      return Ok(0);
    }
  }

  lemma DecodedRule(m: seq<byte>)
    requires Decode(m, TILE).Ok?
    ensures ValidFragment(Decode(m, TILE).value) && |m| >= 1 && Decode(m, TILE).value.rule == m[0]
  {
    EncodeDecode(m, TILE);
    assert Encode(Decode(m, TILE).value)[0] == Decode(m, TILE).value.rule;
  }

  lemma FinalizeCode(s: Session)
    requires s.last.Last? && s.last.window <= 1
    ensures Finalize(s).code == Ok(0)
  {
    hide Marked;
    hide Span;
    hide Rcs.Check;
    FinalizeCases(s);
  }

  lemma AcceptCode(s: Session, m: seq<byte>, request: bool)
    requires LastOk(s) && s.pending == Idle && |m| >= 2
    ensures Accept(s, m, request).code == Ok(0)
  {
    hide S.Finalize;
    hide Marked;
    hide Decode;
    var t := Activate(s, m[0]);
    if t.last.Last? {
      FinalizeCode(t);
    }
    if Decode(m, TILE).Ok? {
      EncodeDecode(m, TILE);
      var f := Decode(m, TILE).value;
      if |f.tile| <= t.limit && !t.last.Last? {
        FinalizeCode(t.(last := Last(f.window, f.rcs, f.tile), staging := t.limit - |f.tile|));
      }
    }
  }

  lemma LastBounds(s: Session)
    requires Valid(s)
    ensures ValidTiles(s)
    ensures s.last.Last? ==> s.staging + |s.last.tile| <= s.limit
  {
  }

  lemma MarkedWith(tiles: map<nat, seq<byte>>, o: nat, tile: seq<byte>, w: nat)
    ensures Marked(tiles[o := tile], w) ==
            Marked(tiles, w) + if o / WINDOW == w then {WINDOW - 1 - o % WINDOW} else {}
  {
    var b := WINDOW - 1 - o % WINDOW;
    assert o / WINDOW == w ==> o == w * WINDOW + WINDOW - 1 - b;
  }

  lemma Staging(buf: seq<byte>, s: Session, f: Fragment)
    requires Open(s) && s.pending == Idle && !s.last.Last? && !s.delivered && Stored(buf, s)
    requires ValidFragment(f) && f.fcn == ALL_1 && |f.tile| <= s.limit
    requires f.window * WINDOW + WINDOW - 1 !in s.tiles && (f.window == 0 ==> Marked(s.tiles, 1) == {})
    ensures Valid(s.(last := Last(f.window, f.rcs, f.tile), staging := s.limit - |f.tile|))
    ensures Stored(Splice(buf, s.limit - |f.tile|, f.tile),
                   s.(last := Last(f.window, f.rcs, f.tile), staging := s.limit - |f.tile|))
  {
    ParkLast(buf, s, Last(f.window, f.rcs, f.tile));
    StagedValid(s, f);
  }

  /** The two bitmaps together have one bit per tile. */
  lemma {:induction false} MarkedSizes(tiles: map<nat, seq<byte>>)
    requires forall o :: o in tiles ==> o < MAX_TILES
    ensures |tiles| == |Marked(tiles, 0)| + |Marked(tiles, 1)|
    decreases |tiles|
  {
    if tiles == map[] {
      assert Marked(tiles, 0) == {} && Marked(tiles, 1) == {};
    } else {
      var o :| o in tiles;
      hide Marked;
      MarkedWithout(tiles, o, 0);
      MarkedWithout(tiles, o, 1);
      assert (tiles - {o}).Keys == tiles.Keys - {o};
      MarkedSizes(tiles - {o});
    }
  }

  lemma MarkedWithout(tiles: map<nat, seq<byte>>, o: nat, w: nat)
    requires o in tiles
    ensures |Marked(tiles - {o}, w)| == |Marked(tiles, w)| - if o / WINDOW == w then 1 else 0
  {
    var bits, b := Marked(tiles - {o}, w), WINDOW - 1 - o % WINDOW;
    if o / WINDOW == w {
      assert o == w * WINDOW + WINDOW - 1 - b;
      assert Marked(tiles, w) == bits + {b} && b !in bits;
    } else {
      assert Marked(tiles, w) == bits;
    }
  }

  lemma InitFields(buf: seq<byte>, limit: nat)
    requires limit <= |buf|
    ensures Marked(map[], 0) == {} && Marked(map[], 1) == {}
    ensures Stored(buf, Init(limit))
  {
  }

  /** How receiver_finalize goes on once the other window is full, by the bits
      it requires. */
  lemma FinalizeCases(s: Session)
    requires s.last.Last? && s.last.window <= 1
    ensures s.last.window == 1 && Marked(s.tiles, 0) != AckCodec.MASK ==>
              Finalize(s) == Negative(s, 0, Marked(s.tiles, 0), QUIET)
    ensures var w := s.last.window;
            var bits := Marked(s.tiles, w);
            var k := Span(bits, WINDOW);
            var n := w * WINDOW + k;
            var required := set b | b in AckCodec.MASK && WINDOW - k <= b;
            !(w == 1 && Marked(s.tiles, 0) != AckCodec.MASK) ==>
              && (!(required <= bits) ==> Finalize(s) == Negative(s, w, bits + {0}, QUIET))
              && (required <= bits && (n * TILE + |s.last.tile| > s.limit || n * TILE > s.staging) ==>
                    Finalize(s) == Abort(s, s.rule))
              && (required <= bits && n * TILE + |s.last.tile| <= s.limit && n * TILE <= s.staging ==>
                    && HasFirst(s.tiles, n)
                    && Finalize(s) == CheckPacket(s.(staging := n * TILE), n, k))
  {
    hide Negative, CheckPacket, Abort, Finalize, Marked, Span, HasFirst;
    FinalizeForms(s);
    var bits := Marked(s.tiles, s.last.window);
    var k := Span(bits, WINDOW);
    var required := set b | b in AckCodec.MASK && WINDOW - k <= b;
    if required <= bits {
      assert forall b :: WINDOW - k <= b < WINDOW ==> b in required;
    } else {
      var b :| b in required && b !in bits;
      assert WINDOW - k <= b < WINDOW && b !in bits;
    }
  }

  lemma CheckPacketCases(s: Session, n: nat, k: nat)
    requires s.last.Last? && HasFirst(s.tiles, n)
    ensures var packet := Assemble(s.tiles, n) + s.last.tile;
            var bits := Marked(s.tiles, s.last.window);
            var bits' := if k > 1 then bits else bits + {0};
            var checked := QUIET.(checked := true);
            CheckPacket(s, n, k) ==
            if Rcs.Check(packet) == s.last.rcs
            then Reply(QueueAck(s.(packet := packet), s.last.window, {}, true),
                       checked.(ok := true), Ok(0))
            else Negative(s, s.last.window, bits', checked)
  {
  }

  /** Which tiles to report after an RCS mismatch. The bitmap is a contiguous
      run here, so `full` always holds. */
  method MismatchBitmap(bitmap: set<nat>, required: set<nat>, count: nat) returns (bits: set<nat>)
    requires bitmap <= AckCodec.MASK && count == Span(bitmap, WINDOW)
    requires required <= bitmap && required == set b | b in AckCodec.MASK && WINDOW - count <= b
    ensures bits == if count > 1 then bitmap else bitmap + {0}
  {
    var population := PopulationCount(bitmap);
    var full := bitmap == required && population == count;
    RunSize(bitmap, count);
    bits := if full && count > 1 then bitmap else bitmap + {0};
  }

  lemma {:induction false} RunSize(bits: set<nat>, count: nat)
    requires count <= WINDOW && forall b :: b in bits <==> WINDOW - count <= b < WINDOW
    ensures |bits| == count
    decreases count
  {
    if count == 0 {
      assert bits == {};
    } else {
      RunSize(bits - {WINDOW - count}, count - 1);
    }
  }

  /** WINDOW - trailing_zeros63(bitmap), or 0 for an empty bitmap */
  method RegularCount(bitmap: set<nat>) returns (count: nat)
    requires bitmap <= AckCodec.MASK
    ensures count == Span(bitmap, WINDOW)
  {
    if bitmap == {} {
      return 0;
    }
    var zeros := 0;
    while zeros < WINDOW && zeros !in bitmap
      invariant zeros <= WINDOW
      invariant Span(bitmap, WINDOW - zeros) == Span(bitmap, WINDOW)
    {
      zeros := zeros + 1;
    }
    return WINDOW - zeros;
  }

  method PopulationCount(bitmap: set<nat>) returns (count: nat)
    ensures count == |bitmap|
  {
    var value := bitmap;
    count := 0;
    while value != {}
      invariant count + |value| == |bitmap|
      decreases value
    {
      var b :| b in value;
      value := value - {b};
      count := count + 1;
    }
  }
}

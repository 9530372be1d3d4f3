/** The sender object: schc_fragmenter_*. Each method does to State() what the
    value-level sender does. */
module Fragmenter {
  import opened Bits
  import opened FragmentCodec
  import opened Tiles
  import opened Sender
  import S = Sender
  import AckCodec
  import Rcs

  class Fragmenter {
    var packet: seq<byte>
    var rule: byte
    var count: nat
    var next: nat
    var missing: set<nat>
    var window: nat
    var position: nat
    var attempts: nat
    var phase: Phase
    var status: Status

    ghost function State(): (s: Sender)
      reads this
    {
      Sender(packet, rule, count, next, missing, window, position, attempts, phase, status)
    }

    ghost predicate Valid()
      reads this
    {
      S.Valid(State())
    }

    constructor (rule: byte, packet: seq<byte>)
      requires ValidRule(rule) && ValidPacket(packet)
      ensures Valid()
      ensures State() == Sender(packet, rule, TileCount(|packet|), 0, {}, 0, 0, 0, Initial, Ready)
    {
      this.packet, this.rule, count, next := packet, rule, TileCount(|packet|), 0;
      missing, window, position := {}, 0, 0;
      attempts, phase, status := 0, Initial, Ready;
      new;
      assert S.Init(rule, packet, |packet|) == Ok(State());
    }

    /** schc_fragmenter_init */
    static method Create(rule: byte, packet: seq<byte>, limit: nat)
      returns (r: Result<Fragmenter, Error>)
      ensures r.Err? ==> S.Init(rule, packet, limit) == Err(r.error)
      ensures r.Ok? ==> fresh(r.value) && r.value.Valid() &&
                        S.Init(rule, packet, limit) == Ok(r.value.State())
    {
      if !ValidRule(rule) || limit == 0 || limit > MAX_PACKET {
        return Err(InvalidArgument);
      }
      if |packet| == 0 {
        return Err(TooShort);
      }
      if |packet| > limit {
        return Err(BufferTooSmall);
      }
      var o := new Fragmenter(rule, packet);
      return Ok(o);
    }

    /** sender_terminal */
    method Stop(status: Status, phase: Phase)
      modifies this
      ensures State() == Terminal(old(State()), status, phase)
    {
      packet, count, next := [], 0, 0;
      missing, window, position := {}, 0, 0;
      this.status, this.phase := status, phase;
    }

    /** sender_assigned */
    method AssignedBits(window: nat) returns (bits: set<nat>)
      ensures bits == Assigned(count, window)
    {
      bits := {};
      for index := 0 to count
        invariant bits == AssignedBelow(count, window, index)
      {
        AssignedStep(count, window, index);
        if index / WINDOW == window {
          var final := index + 1 == count;
          bits := bits + {if final then 0 else WINDOW - 1 - index % WINDOW};
        }
      }
    }

    /** sender_fragment */
    method WriteFragment(index: nat, out: array<byte>) returns (r: Result<nat, Error>)
      requires ValidRule(rule) && ValidPacket(packet) && count == TileCount(|packet|)
      requires index < count
      modifies out
      ensures r == if out.Length < |Frame(packet, rule, index)| then Err(BufferTooSmall)
                   else Ok(|Frame(packet, rule, index)|)
      ensures r.Ok? ==> out[..r.value] == Frame(packet, rule, index)
    {
      var offset := index * TILE;
      var remaining := |packet| - offset;
      var final := index + 1 == count;
      var tile := packet[offset..offset + if remaining < TILE then remaining else TILE];
      var rcs: seq<byte> := NO_RCS;
      if final {
        rcs := Rcs.ComputeRcs(packet);
      }
      var f := Fragment(rule, index / WINDOW, if final then ALL_1 else WINDOW - 1 - index % WINDOW, rcs, tile);
      assert f == FragmentOf(packet, rule, index);
      r := FragmentEncode(f, out);
    }

    /** schc_fragmenter_next */
    method Next(out: array<byte>) returns (r: Result<nat, Error>)
      requires Valid()
      modifies this, out
      ensures Valid() && State() == S.Next(old(State()), out.Length).0
      ensures r.Err? ==> S.Next(old(State()), out.Length).1 == Err(r.error)
      ensures r.Ok? ==> r.value <= out.Length &&
                        S.Next(old(State()), out.Length).1 == Ok(out[..r.value])
    {
      if phase == Initial {
        r := NextInitial(out);
        return;
      }
      if phase == Retransmit {
        var done;
        done, r := NextMissingTile(out);
        if done { return; }
      }
      if phase == AckPending {
        var done;
        done, r := NextAckRequest(out);
        if done { return; }
      }
      if phase == Aborting {
        r := ControlEncode(SenderAbort, rule, 0, out);
        if r.Ok? {
          phase := Silent;
        }
        return;
      }
      return Err(Done);
    }

    method NextInitial(out: array<byte>) returns (r: Result<nat, Error>)
      requires Valid() && phase == Initial
      modifies this`status, this`next, this`attempts, this`phase, out
      ensures Valid() && State() == S.Next(old(State()), out.Length).0
      ensures r.Err? ==> S.Next(old(State()), out.Length).1 == Err(r.error)
      ensures r.Ok? ==> r.value <= out.Length &&
                        S.Next(old(State()), out.Length).1 == Ok(out[..r.value])
    {
      hide Frame;
      r := WriteFragment(next, out);
      if r.Err? { return; }
      status := Active;
      next := next + 1;
      if next == count {
        attempts := attempts + 1;
        phase := Waiting;
      }
    }

    method FindMissing() returns (p: nat)
      requires position <= WINDOW
      ensures p == NextMissing(missing, position)
    {
      p := position;
      while p < WINDOW && WINDOW - 1 - p !in missing
        invariant position <= p <= WINDOW
        invariant NextMissing(missing, p) == NextMissing(missing, position)
      {
        p := p + 1;
      }
    }

    /** The retransmission step; when no tile is left it only moves on. */
    method NextMissingTile(out: array<byte>) returns (done: bool, r: Result<nat, Error>)
      requires Valid() && phase == Retransmit
      modifies this`position, this`attempts, this`phase, out
      ensures Valid()
      ensures done <==> NextMissing(old(missing), old(position)) < WINDOW
      ensures done ==> State() == S.Next(old(State()), out.Length).0
      ensures done && r.Err? ==> S.Next(old(State()), out.Length).1 == Err(r.error)
      ensures done && r.Ok? ==> r.value <= out.Length &&
                                S.Next(old(State()), out.Length).1 == Ok(out[..r.value])
      ensures !done ==> State() == old(State()).(phase := AckPending)
    {
      hide Frame, Assigned, Tile, TileBit, S.Budget;
      var p := FindMissing();
      if p == WINDOW {
        phase := AckPending;
        return false, Err(Done);
      }
      AssignedTile(count, window, WINDOW - 1 - p);
      var index := window * WINDOW + p;
      if WINDOW - 1 - p == 0 && window == FinalWindow(count) {
        index := count - 1;
      }
      done := true;
      r := WriteFragment(index, out);
      if r.Err? { return; }
      position := p + 1;
      if index + 1 == count {
        attempts := attempts + 1;
        phase := Waiting;
      }
    }

    /** The ACK REQ branch; out of attempts it only moves on to the abort. */
    method NextAckRequest(out: array<byte>) returns (done: bool, r: Result<nat, Error>)
      requires Valid() && phase == AckPending
      modifies this, out
      ensures Valid()
      ensures done <==> old(attempts) < MAX_ATTEMPTS
      ensures done ==> State() == AskForAck(old(State()), out.Length).0
      ensures done && r.Err? ==> AskForAck(old(State()), out.Length).1 == Err(r.error)
      ensures done && r.Ok? ==> r.value <= out.Length &&
                                AskForAck(old(State()), out.Length).1 == Ok(out[..r.value])
      ensures !done ==> State() == Terminal(old(State()), Aborted, Aborting)
    {
      if attempts >= MAX_ATTEMPTS {
        Stop(Aborted, Aborting);
        return false, Err(Done);
      }
      FinalWindowFits(State());
      r := ControlEncode(AckRequest, rule, FinalWindow(count), out);
      done := true;
      if r.Err? { return; }
      attempts := attempts + 1;
      phase := Waiting;
    }

    /** schc_fragmenter_input */
    method Input(m: seq<byte>) returns (r: Result<nat, Error>)
      requires Valid()
      modifies this
      ensures Valid() && State() == S.Input(old(State()), m).0
      ensures r == S.Input(old(State()), m).1
    {
      if status != Active || |m| == 0 || m[0] != rule { return Ok(0); }
      var abort := new byte[3];
      var length := ControlEncode(ReceiverAbort, rule, 0, abort);
      if |m| == 3 && m == abort[..3] {
        Stop(Aborted, Silent);
        return Ok(0);
      }
      if phase != Waiting { return Ok(0); }
      var d := AckCodec.AckDecode(m, {}, false);
      if d.Err? { return Err(d.error); }
      r := Acknowledge(m, d.value);
    }

    method Acknowledge(m: seq<byte>, a: AckCodec.Ack) returns (r: Result<nat, Error>)
      requires Valid() && phase == Waiting
      modifies this
      ensures Valid() && State() == Acknowledged(old(State()), m, a).0
      ensures r == Acknowledged(old(State()), m, a).1
    {
      hide AckCodec.Decode;
      var last := FinalWindow(count);
      if a.complete {
        if a.window == last {
          Stop(Succeeded, Silent);
        }
        return Ok(0);
      }
      if a.window > last { return Ok(0); }
      var bits := AssignedBits(a.window);
      var d := AckCodec.AckDecode(m, bits, true);
      if d.Err? { return Err(d.error); }
      var lost := bits - d.value.bitmap;
      if lost == {} {
        if a.window == last {
          Stop(Aborted, Aborting);
        }
        return Ok(0);
      }
      if attempts >= MAX_ATTEMPTS {
        Stop(Aborted, Aborting);
        return Ok(0);
      }
      missing, window, position, phase := lost, a.window, 0, Retransmit;
      return Ok(0);
    }

    /** schc_fragmenter_timeout */
    method Timeout() returns (r: Result<nat, Error>)
      requires Valid()
      modifies this
      ensures Valid() && State() == S.Timeout(old(State())).0
      ensures r == S.Timeout(old(State())).1
    {
      if status != Active || phase != Waiting { return Err(InvalidArgument); }
      if attempts >= MAX_ATTEMPTS {
        Stop(Aborted, Aborting);
      } else {
        phase := AckPending;
      }
      return Ok(0);
    }
  }
}

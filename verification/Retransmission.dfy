/** What the sender puts on the air in the first pass and in one
    retransmission round. */
module Retransmission {
  import opened Bits
  import opened FragmentCodec
  import opened Tiles
  import opened Sender

  function Polls(n: nat, room: nat): (events: seq<Event>)
    ensures |events| == n
  {
    seq(n, _ => Poll(room))
  }

  predicate InRange(tiles: seq<nat>, n: nat) {
    forall k :: 0 <= k < |tiles| ==> tiles[k] < n
  }

  /** The frames of the given tiles, each as in the first transmission. */
  function Frames(packet: seq<byte>, rule: byte, tiles: seq<nat>): (wires: seq<seq<byte>>)
    requires ValidRule(rule) && ValidPacket(packet)
    requires InRange(tiles, TileCount(|packet|))
    ensures |wires| == |tiles|
    ensures forall k :: 0 <= k < |tiles| ==> wires[k] == Frame(packet, rule, tiles[k])
  {
    seq(|tiles|, k requires 0 <= k < |tiles| => Frame(packet, rule, tiles[k]))
  }

  function From(k: nat, n: nat): (tiles: seq<nat>)
    requires k <= n
    ensures |tiles| == n - k && InRange(tiles, n)
    ensures forall i :: i in tiles <==> k <= i < n
    ensures forall j :: 0 <= j < n - k ==> tiles[j] == k + j
    decreases n - k
  {
    if k == n then [] else [k] + From(k + 1, n)
  }

  lemma FrameFits(packet: seq<byte>, rule: byte, i: nat)
    requires ValidRule(rule) && ValidPacket(packet) && i < TileCount(|packet|)
    ensures |Frame(packet, rule, i)| <= MAX_MESSAGE
  {
  }

  /** The first pass sends every tile once, in order, All-1 last. */
  lemma {:induction false} FirstPass(s: Sender, room: nat)
    requires Valid(s) && s.phase == Initial && room >= MAX_MESSAGE
    ensures Run(s, Polls(s.count - s.next, room)) ==
            (s.(status := Active, next := s.count, attempts := 1, phase := Waiting),
             Frames(s.packet, s.rule, From(s.next, s.count)))
    decreases s.count - s.next
  {
    hide Next;
    hide Frame;
    var n := s.count - s.next;
    var t := InitialNext(s, room);
    PollFirst(s, n, room);
    FramesFirst(s.packet, s.rule, From(s.next, s.count));
    if n == 1 {
      assert Run(t, Polls(0, room)) == (t, []);
    } else {
      FirstPass(t, room);
    }
  }

  lemma InitialNext(s: Sender, room: nat) returns (t: Sender)
    requires Valid(s) && s.phase == Initial && room >= MAX_MESSAGE
    ensures Valid(t) && Step(s, Poll(room)) == (t, [Frame(s.packet, s.rule, s.next)])
    ensures t == if s.next + 1 < s.count then s.(status := Active, next := s.next + 1)
                 else s.(status := Active, next := s.count, attempts := 1, phase := Waiting)
  {
    FrameFits(s.packet, s.rule, s.next);
    t := Next(s, room).0;
  }

  lemma PollFirst(s: Sender, n: nat, room: nat)
    requires Valid(s) && n > 0
    ensures Run(s, Polls(n, room)) ==
            var (t, out) := Step(s, Poll(room));
            var (u, rest) := Run(t, Polls(n - 1, room));
            (u, out + rest)
  {
    assert Polls(n, room)[1..] == Polls(n - 1, room);
  }

  lemma FramesFirst(packet: seq<byte>, rule: byte, tiles: seq<nat>)
    requires ValidRule(rule) && ValidPacket(packet) && tiles != []
    requires InRange(tiles, TileCount(|packet|))
    ensures Frames(packet, rule, tiles) ==
            [Frame(packet, rule, tiles[0])] + Frames(packet, rule, tiles[1..])
  {
  }

  /** Tiles a round has still to send, from window position p on. */
  function MissingTiles(count: nat, window: nat, missing: set<nat>, p: nat): (tiles: seq<nat>)
    requires count > 0 && p <= WINDOW
    requires missing <= Assigned(count, window)
    ensures |tiles| <= WINDOW - p && InRange(tiles, count)
    ensures forall i :: i in tiles ==> i < count && i / WINDOW == window && TileBit(count, i) in missing
    decreases WINDOW - p, missing
  {
    if p == WINDOW then []
    else if WINDOW - 1 - p in missing then
      AssignedTile(count, window, WINDOW - 1 - p);
      [TileAt(count, window, WINDOW - 1 - p)] + MissingTiles(count, window, missing, p + 1)
    else MissingTiles(count, window, missing, p + 1)
  }

  lemma TileBitOrder(count: nat, i: nat, j: nat)
    requires i < count && j < count && i / WINDOW == j / WINDOW
    requires TileBit(count, i) > TileBit(count, j)
    ensures i < j
  {
  }

  predicate Ascending(tiles: seq<nat>) {
    forall k, l :: 0 <= k < l < |tiles| ==> tiles[k] < tiles[l]
  }

  /** Every missing tile is among them, once, and they come in order. */
  lemma {:induction false} MissingTilesExact(count: nat, window: nat, missing: set<nat>, p: nat)
    requires count > 0 && p <= WINDOW
    requires missing <= Assigned(count, window)
    ensures var tiles := MissingTiles(count, window, missing, p);
            && (forall i :: 0 <= i < count ==>
                  (i in tiles <==> i / WINDOW == window && TileBit(count, i) in missing * Low(p)))
            && Ascending(tiles)
    decreases WINDOW - p
  {
    if p < WINDOW {
      MissingTilesExact(count, window, missing, p + 1);
      var rest := MissingTiles(count, window, missing, p + 1);
      if WINDOW - 1 - p in missing {
        AssignedTile(count, window, WINDOW - 1 - p);
        var first := TileAt(count, window, WINDOW - 1 - p);
        forall k | 0 <= k < |rest|
          ensures first < rest[k]
        {
          assert rest[k] in rest;
          TileBitOrder(count, first, rest[k]);
        }
        forall i | 0 <= i < count && i / WINDOW == window && TileBit(count, i) == WINDOW - 1 - p
          ensures i == first
        {
          TileAtInvertsTileBit(count, i);
        }
      }
    }
  }

  /** The bits of window positions p and later. */
  function Low(p: nat): (bits: set<nat>)
    requires p <= WINDOW
    ensures forall b :: b in bits <==> 0 <= b <= WINDOW - 1 - p
    decreases WINDOW - p
  {
    if p == WINDOW then {} else {WINDOW - 1 - p} + Low(p + 1)
  }

  /** The frames of the tiles, then an ACK REQ unless the All-1, which asks
      for an ACK itself, was among them. */
  function Round(packet: seq<byte>, rule: byte, tiles: seq<nat>): (wires: seq<seq<byte>>)
    requires ValidRule(rule) && ValidPacket(packet) && InRange(tiles, TileCount(|packet|))
  {
    var count := TileCount(|packet|);
    Frames(packet, rule, tiles) +
    if count - 1 in tiles then [] else [ControlWire(AckRequest, rule, FinalWindow(count))]
  }

  lemma RoundFirst(packet: seq<byte>, rule: byte, i: nat, rest: seq<nat>)
    requires ValidRule(rule) && ValidPacket(packet)
    requires i < TileCount(|packet|) && InRange(rest, TileCount(|packet|))
    requires i + 1 == TileCount(|packet|) ==> rest == []
    ensures InRange([i] + rest, TileCount(|packet|))
    ensures Round(packet, rule, [i] + rest) ==
            [Frame(packet, rule, i)] +
            if i + 1 == TileCount(|packet|) then [] else Round(packet, rule, rest)
  {
    hide Frames;
    hide Frame;
    hide ControlWire;
    var count := TileCount(|packet|);
    assert ([i] + rest)[1..] == rest;
    FramesFirst(packet, rule, [i] + rest);
    if i + 1 < count {
      assert count - 1 in [i] + rest <==> count - 1 in rest;
      var first, others := [Frame(packet, rule, i)], Frames(packet, rule, rest);
      var tail := if count - 1 in rest then [] else [ControlWire(AckRequest, rule, FinalWindow(count))];
      assert (first + others) + tail == first + (others + tail);
    } else {
      assert Frames(packet, rule, []) == [];
      assert ([i] + rest)[0] == count - 1;
    }
  }

  /** What a round still emits. */
  function RoundFrames(s: Sender): (wires: seq<seq<byte>>)
    requires Valid(s) && s.phase == Retransmit
  {
    Round(s.packet, s.rule, MissingTiles(s.count, s.window, s.missing, s.position))
  }

  /** Polling a round to its end sends exactly that and uses one attempt. */
  lemma {:induction false} RoundExact(s: Sender, room: nat)
    requires Valid(s) && s.phase == Retransmit && room >= MAX_MESSAGE
    ensures Emits(s, RoundFrames(s), room)
    decreases WINDOW - s.position
  {
    hide Next, Frame, ControlWire, Emits, Run, Step;
    if NextMissing(s.missing, s.position) < WINDOW {
      var t, i := ResendNext(s, room);
      RoundFramesNext(s, t, i);
      if i + 1 == s.count {
        EmitsLast(s, t, Frame(s.packet, s.rule, i), room);
        assert RoundFrames(s) == [Frame(s.packet, s.rule, i)];
      } else {
        RoundExact(t, room);
        EmitsFirst(s, t, Frame(s.packet, s.rule, i), RoundFrames(t), room);
      }
    } else {
      SkipPresent(s.count, s.window, s.missing, s.position);
      var t := AskNext(s, room);
      var m := ControlWire(AckRequest, s.rule, FinalWindow(s.count));
      EmitsLast(s, t, m, room);
      assert RoundFrames(s) == [m];
    }
  }

  /** Polled once for each, the sender emits these messages and then waits, with
      one more attempt used. */
  ghost predicate Emits(s: Sender, messages: seq<seq<byte>>, room: nat)
    requires Valid(s)
  {
    var (t, out) := Run(s, Polls(|messages|, room));
    out == messages && t.phase == Waiting && t.attempts == s.attempts + 1 && t.packet == s.packet
  }

  lemma EmitsLast(s: Sender, t: Sender, m: seq<byte>, room: nat)
    requires Valid(s) && Step(s, Poll(room)) == (t, [m])
    requires t.phase == Waiting && t.attempts == s.attempts + 1 && t.packet == s.packet
    ensures Emits(s, [m], room)
  {
    hide Next;
    PollFirst(s, 1, room);
    assert Run(t, Polls(0, room)) == (t, []);
  }

  lemma EmitsFirst(s: Sender, t: Sender, m: seq<byte>, messages: seq<seq<byte>>, room: nat)
    requires Valid(s) && Step(s, Poll(room)) == (t, [m]) && Valid(t) && Emits(t, messages, room)
    requires t.attempts == s.attempts && t.packet == s.packet
    ensures Emits(s, [m] + messages, room)
  {
    hide Next;
    PollFirst(s, 1 + |messages|, room);
  }

  lemma RoundFramesNext(s: Sender, t: Sender, i: nat)
    requires Valid(s) && s.phase == Retransmit && i < s.count
    requires var p := NextMissing(s.missing, s.position);
             && p < WINDOW && i == TileAt(s.count, s.window, WINDOW - 1 - p)
             && (i + 1 == s.count ==> p == WINDOW - 1)
             && (i + 1 < s.count ==> t == s.(position := p + 1))
    ensures RoundFrames(s) ==
            [Frame(s.packet, s.rule, i)] + if i + 1 == s.count then [] else RoundFrames(t)
  {
    hide Frame, ControlWire, Round, MissingTiles, Frames, TileAt, NextMissing;
    var p := NextMissing(s.missing, s.position);
    MissingFirst(s.count, s.window, s.missing, s.position);
    RoundFirst(s.packet, s.rule, i, MissingTiles(s.count, s.window, s.missing, p + 1));
  }

  lemma MissingFirst(count: nat, window: nat, missing: set<nat>, from: nat)
    requires count > 0 && from <= WINDOW && missing <= Assigned(count, window)
    requires NextMissing(missing, from) < WINDOW
    ensures var p := NextMissing(missing, from);
            && MissingTiles(count, window, missing, from) ==
               [TileAt(count, window, WINDOW - 1 - p)] + MissingTiles(count, window, missing, p + 1)
            && (p == WINDOW - 1 ==> MissingTiles(count, window, missing, p + 1) == [])
  {
    hide TileAt, Assigned;
    SkipPresent(count, window, missing, from);
  }

  lemma AskNext(s: Sender, room: nat) returns (t: Sender)
    requires Valid(s) && s.phase == Retransmit && room >= MAX_MESSAGE
    requires NextMissing(s.missing, s.position) == WINDOW
    ensures FinalWindow(s.count) <= 1
    ensures t == s.(attempts := s.attempts + 1, phase := Waiting)
    ensures Valid(t)
    ensures Step(s, Poll(room)) == (t, [ControlWire(AckRequest, s.rule, FinalWindow(s.count))])
  {
    FinalWindowFits(s);
    t := Next(s, room).0;
  }

  lemma ResendNext(s: Sender, room: nat) returns (t: Sender, i: nat)
    requires Valid(s) && s.phase == Retransmit && room >= MAX_MESSAGE
    requires NextMissing(s.missing, s.position) < WINDOW
    ensures var p := NextMissing(s.missing, s.position);
            && i < s.count && i == TileAt(s.count, s.window, WINDOW - 1 - p)
            && (i + 1 == s.count ==> p == WINDOW - 1)
            && t == (if i + 1 == s.count
                     then s.(position := p + 1, attempts := s.attempts + 1, phase := Waiting)
                     else s.(position := p + 1))
    ensures Valid(t) && Step(s, Poll(room)) == (t, [Frame(s.packet, s.rule, i)])
  {
    hide Frame, Assigned;
    var p := NextMissing(s.missing, s.position);
    AssignedTile(s.count, s.window, WINDOW - 1 - p);
    i := TileAt(s.count, s.window, WINDOW - 1 - p);
    FrameFits(s.packet, s.rule, i);
    t := Next(s, room).0;
  }

  lemma {:induction false} SkipPresent(count: nat, window: nat, missing: set<nat>, p: nat)
    requires count > 0 && p <= WINDOW && missing <= Assigned(count, window)
    ensures MissingTiles(count, window, missing, p) ==
            MissingTiles(count, window, missing, NextMissing(missing, p))
    decreases WINDOW - p
  {
    if p < WINDOW && WINDOW - 1 - p !in missing {
      SkipPresent(count, window, missing, p + 1);
    }
  }
}

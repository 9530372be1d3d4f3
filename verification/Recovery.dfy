/** Recovery: whatever was lost in the first pass, an ACK REQ and at most two
    retransmission rounds that get through in order end in success. */
module Recovery {
  import opened Bits
  import opened FragmentCodec
  import opened Tiles
  import opened Honest
  import opened Exchange
  import opened Lossless
  import opened Retransmission
  import AckCodec
  import Rcs
  import S = Sender
  import R = Session
  import Inv = SessionInvariant
  import Runs = SessionRuns

  /** An idle, unfinished receiver for the job, with room for the packet. */
  ghost predicate Idle(j: Job, s: R.Session)
    requires ValidJob(j)
  {
    && R.Valid(s) && Faithful(j, s) && |j.packet| <= s.limit
    && !s.terminal && !s.delivered && s.pending == R.Idle
  }

  function Tail(s: R.Session): (n: int)
    requires s.last.Last?
  {
    s.limit - |s.last.tile|
  }

  lemma TailRoom(j: Job, s: R.Session)
    requires ValidJob(j) && Faithful(j, s) && |j.packet| <= s.limit && s.last.Last?
    ensures (Count(j) - 1) * TILE <= Tail(s) && 1 <= |s.last.tile|
  {
    LastLength(j);
  }

  // ----------------------------------------------- tiles that get through

  /** A regular tile is accepted if the All-1 tile is parked at the end or all
      tiles before it are there. */
  lemma CleanTile(j: Job, s: R.Session, i: nat) returns (t: R.Session)
    requires ValidJob(j) && Idle(j, s) && i < Count(j) - 1 && i !in s.tiles
    requires s.last.Last? ==> s.staging == Tail(s) || R.HasFirst(s.tiles, i)
    ensures t == R.Input(s, Frame(j.packet, j.rule, i)).session
    ensures Idle(j, t) && t.active
    ensures t.tiles == s.tiles[i := Tile(j.packet, i)]
    ensures t.last == s.last && t.attempts == s.attempts && t.limit == s.limit
    ensures t.last.Last? ==> t.staging == Tail(t)
  {
    hide Frame;
    hide R.Input;
    hide R.Valid;
    hide Faithful;
    var m := Frame(j.packet, j.rule, i);
    Inv.LastInRange(s);
    t := R.Input(s, m).session;
    assert Emitted(j, m);
    Inv.InputValid(s, m);
    InputFaithful(j, s, m);
    StoredTile(j, s, i);
  }

  lemma StoredTile(j: Job, s: R.Session, i: nat)
    requires ValidJob(j) && Idle(j, s) && i < Count(j) - 1 && i !in s.tiles
    requires s.last.Last? ==> s.staging == Tail(s) || R.HasFirst(s.tiles, i)
    ensures var t := R.Input(s, Frame(j.packet, j.rule, i)).session;
            t == R.Activate(s, j.rule).(tiles := s.tiles[i := Tile(j.packet, i)],
                                        staging := if s.last.Last? then Tail(s) else s.staging)
  {
    hide Frame;
    hide R.Input;
    hide Rcs.Check;
    FrameAccepted(j, s, i);
    if s.last.Last? {
      TailRoom(j, s);
      LastWindowOf(j, s);
      if s.staging != Tail(s) {
        var n := s.staging / TILE;
        assert n < i ==> n in s.tiles;
        assert s.staging == i * TILE;
      }
    }
  }

  /** A receiver hearing a list of messages. */
  ghost function Hear(s: R.Session, messages: seq<seq<byte>>): (t: R.Session)
    requires R.Valid(s)
    decreases |messages|
  {
    if messages == [] then s
    else
      Inv.InputValid(s, messages[0]);
      Hear(R.Input(s, messages[0]).session, messages[1..])
  }

  lemma {:induction false} HearConcat(s: R.Session, a: seq<seq<byte>>, b: seq<seq<byte>>)
    requires R.Valid(s)
    ensures R.Valid(Hear(s, a)) && Hear(s, a + b) == Hear(Hear(s, a), b)
    decreases |a|
  {
    hide R.Valid;
    hide R.Input;
    if a == [] {
      assert a + b == b;
    } else {
      Inv.LastInRange(s);
      Inv.InputValid(s, a[0]);
      HearConcat(R.Input(s, a[0]).session, a[1..], b);
      assert (a + b)[1..] == a[1..] + b;
    }
  }

  lemma {:induction false} FeedTiles(j: Job, s: R.Session, tiles: seq<nat>) returns (t: R.Session)
    requires ValidJob(j) && Idle(j, s) && InRange(tiles, Count(j) - 1)
    requires forall k :: 0 <= k < |tiles| ==> tiles[k] !in s.tiles
    requires forall k, l :: 0 <= k < l < |tiles| ==> tiles[k] != tiles[l]
    requires s.last.Last? && tiles != [] ==>
               s.staging == Tail(s) || R.HasFirst(s.tiles, tiles[0])
    ensures InRange(tiles, Count(j)) && t == Hear(s, Frames(j.packet, j.rule, tiles))
    ensures Idle(j, t) && t.last == s.last && t.attempts == s.attempts && t.limit == s.limit
    ensures forall o :: o in t.tiles <==> o in s.tiles || o in tiles
    decreases |tiles|
  {
    hide R.Valid;
    hide R.Input;
    hide Faithful;
    hide Frame;
    if tiles == [] {
      t := s;
    } else {
      var u := CleanTile(j, s, tiles[0]);
      FramesFirst(j.packet, j.rule, tiles);
      t := FeedTiles(j, u, tiles[1..]);
      assert Hear(s, Frames(j.packet, j.rule, tiles)) ==
             Hear(u, Frames(j.packet, j.rule, tiles[1..]));
      assert forall o :: o in tiles <==> o == tiles[0] || o in tiles[1..];
    }
  }

  // -------------------------------------------------------------- answers

  /** What a queued answer says about the session. */
  ghost predicate Answer(j: Job, s: R.Session)
    requires ValidJob(j)
  {
    || (s.pending == R.CompleteDue && s.ack == CompleteAck(j))
    || (s.pending == R.AckDue && Matches(j, s, s.ack) && !(AllHere(j, s) && s.last.Last?))
  }

  /** The ACK reports exactly the tiles of its window; bit 0 of the last window
      only if the All-1 tile is here. */
  ghost predicate Matches(j: Job, s: R.Session, a: AckCodec.Ack)
    requires ValidJob(j)
  {
    && a.window == Ask(j, s)
    && (a.bitmap == R.Marked(s.tiles, a.window) ||
        (a.window == LastWindow(j) && s.last.Last? &&
         a.bitmap == R.Marked(s.tiles, a.window) + {0}))
  }

  /** The window to ask for: the first incomplete one. */
  function Ask(j: Job, s: R.Session): (w: nat)
    requires ValidJob(j)
  {
    if LastWindow(j) == 1 && R.Marked(s.tiles, 0) == AckCodec.MASK then 1 else 0
  }

  ghost predicate AllHere(j: Job, s: R.Session)
    requires ValidJob(j)
  {
    forall o :: 0 <= o < Count(j) - 1 ==> o in s.tiles
  }

  /** Finalizing never aborts while attempts are left: it completes or asks for
      the tiles that are not here. */
  lemma FinalizeAnswers(j: Job, s: R.Session)
    requires ValidJob(j) && R.Valid(s) && Faithful(j, s) && |j.packet| <= s.limit
    requires s.last.Last? && s.rule == j.rule && s.attempts < MAX_ATTEMPTS
    ensures Answer(j, R.Finalize(s).session)
  {
    hide Rcs.Check;
    hide TilesOf;
    hide LastOf;
    hide R.Finalize;
    LastWindowOf(j, s);
    TailRoom(j, s);
    if AllHere(j, s) {
      AllHereExact(j, s);
      ParkedRoom(j, s, Count(j) - 1);
      AllTilesComplete(j, s);
    } else {
      IncompleteAnswer(j, s);
    }
  }

  lemma AllHereExact(j: Job, s: R.Session)
    requires ValidJob(j) && Faithful(j, s) && AllHere(j, s)
    ensures forall o :: o in s.tiles <==> 0 <= o < Count(j) - 1
  {
  }

  /** The run of tiles found by finalizing fits before the All-1 tile. */
  lemma ParkedRoom(j: Job, s: R.Session, n: nat)
    requires ValidJob(j) && R.Valid(s) && Faithful(j, s) && |j.packet| <= s.limit && s.last.Last?
    requires n <= Count(j) - 1 && forall o :: o in s.tiles <==> 0 <= o < n
    ensures n * TILE <= s.staging && n * TILE + |s.last.tile| <= s.limit
  {
    TailRoom(j, s);
    if s.staging != Tail(s) {
      var k := s.staging / TILE;
      assert k < n ==> k in s.tiles;
      assert n < k ==> n in s.tiles;
    }
  }

  lemma NegativeAnswer(j: Job, s: R.Session, window: nat, bitmap: set<nat>, report: R.Report)
    requires ValidJob(j) && s.last.Last? && s.attempts < MAX_ATTEMPTS && !AllHere(j, s)
    requires window == Ask(j, s)
    requires bitmap == R.Marked(s.tiles, window) ||
             (window == LastWindow(j) && bitmap == R.Marked(s.tiles, window) + {0})
    ensures Answer(j, R.Negative(s, window, bitmap, report).session)
  {
    hide R.Marked;
  }

  lemma CheckedAnswer(j: Job, s: R.Session, n: nat, k: nat)
    requires ValidJob(j) && s.last.Last? && s.attempts < MAX_ATTEMPTS && !AllHere(j, s)
    requires s.rule == j.rule && s.last.window == LastWindow(j) == Ask(j, s) && R.HasFirst(s.tiles, n)
    ensures Answer(j, R.CheckPacket(s, n, k).session)
  {
    hide R.Marked, R.Negative, Rcs.Check, R.Assemble;
    var bits := R.Marked(s.tiles, s.last.window);
    NegativeAnswer(j, s, s.last.window, if k > 1 then bits else bits + {0}, R.QUIET.(checked := true));
  }

  lemma IncompleteAnswer(j: Job, s: R.Session)
    requires ValidJob(j) && R.Valid(s) && Faithful(j, s) && |j.packet| <= s.limit
    requires s.last.Last? && s.rule == j.rule && s.attempts < MAX_ATTEMPTS
    requires !AllHere(j, s)
    ensures Answer(j, R.Finalize(s).session)
  {
    hide Rcs.Check, TilesOf, LastOf, R.Valid, R.Marked, R.Negative, R.CheckPacket, Answer, AllHere;
    LastWindowOf(j, s);
    var w := s.last.window;
    var bits := R.Marked(s.tiles, w);
    if w == 1 && R.Marked(s.tiles, 0) != AckCodec.MASK {
      NegativeAnswer(j, s, 0, R.Marked(s.tiles, 0), R.QUIET);
    } else {
      var k := R.Span(bits, WINDOW);
      if exists b :: WINDOW - k <= b < WINDOW && b !in bits {
        NegativeAnswer(j, s, w, bits + {0}, R.QUIET);
      } else {
        var n := w * WINDOW + k;
        R.ContiguousHolds(s.tiles, w, k);
        Inv.PrefixExact(s);
        PrefixLength(j, s, n);
        ParkedRoom(j, s, n);
        StillMissing(j, s, n * TILE);
        CheckedAnswer(j, s.(staging := n * TILE), n, k);
      }
    }
  }

  lemma StillMissing(j: Job, s: R.Session, staging: nat)
    requires ValidJob(j) && !AllHere(j, s)
    ensures !AllHere(j, s.(staging := staging))
  {
  }

  // -------------------------------------------- the message that ends a round

  /** s after its answer t to an ACK REQ or an All-1 was queued. */
  ghost predicate Answering(j: Job, s: R.Session, t: R.Session)
    requires ValidJob(j)
  {
    && R.Valid(t) && Faithful(j, t) && Answer(j, t)
    && !t.terminal && !t.delivered && t.limit == s.limit && t.attempts == s.attempts
    && t.tiles == s.tiles
  }

  lemma AckRequestAnswers(j: Job, s: R.Session) returns (t: R.Session)
    requires ValidJob(j) && Idle(j, s) && s.attempts < MAX_ATTEMPTS
    ensures t == R.Input(s, ControlWire(AckRequest, j.rule, LastWindow(j))).session
    ensures Answering(j, s, t) && t.last == s.last
  {
    hide R.Valid;
    hide Faithful;
    hide R.AckRequested;
    hide R.Accept;
    var m := ControlWire(AckRequest, j.rule, LastWindow(j));
    assert Emitted(j, m);
    Inv.LastInRange(s);
    Inv.InputValid(s, m);
    InputFaithful(j, s, m);
    t := R.Input(s, m).session;
    AckRequestIs(j, s);
    RequestedAnswers(j, s);
  }

  lemma AckRequestIs(j: Job, s: R.Session)
    requires ValidJob(j) && Idle(j, s)
    ensures R.Input(s, ControlWire(AckRequest, j.rule, LastWindow(j))) ==
            R.AckRequested(s, j.rule)
  {
    hide R.AckRequested;
    hide TilesOf;
    hide R.Finished;
    var m := ControlWire(AckRequest, j.rule, LastWindow(j));
    assert m[0] == j.rule && m[1] == LastWindow(j) * 128;
    assert R.IsControl(m, AckRequest);
    assert !R.IsControl(m, SenderAbort) && !R.IsControl(m, ReceiverAbort);
  }

  lemma RequestedAnswers(j: Job, s: R.Session)
    requires ValidJob(j) && Idle(j, s) && s.attempts < MAX_ATTEMPTS
    ensures var t := R.AckRequested(s, j.rule).session;
            && Answer(j, t) && Runs.Keeps(R.Activate(s, j.rule), t)
  {
    hide R.Finalize;
    hide TilesOf;
    hide LastOf;
    var u := R.Activate(s, j.rule);
    assert R.Valid(u) && Faithful(j, u);
    if s.last.Last? {
      FinalizeAnswers(j, u);
      Runs.FinalizeKeeps(u);
    } else if R.Marked(s.tiles, 0) == AckCodec.MASK {
      FullWindow0(j, s);
    }
  }

  lemma FullWindow0(j: Job, s: R.Session)
    requires ValidJob(j) && Faithful(j, s) && R.Marked(s.tiles, 0) == AckCodec.MASK
    ensures LastWindow(j) == 1
  {
    assert 0 in R.Marked(s.tiles, 0);
    assert WINDOW - 1 in s.tiles;
  }

  lemma All1Answers(j: Job, s: R.Session) returns (t: R.Session)
    requires ValidJob(j) && Idle(j, s) && s.attempts < MAX_ATTEMPTS
    ensures t == R.Input(s, Frame(j.packet, j.rule, Count(j) - 1)).session
    ensures Answering(j, s, t) && t.last == LastOf(j)
  {
    hide R.Valid;
    hide R.Input;
    hide R.All1;
    hide Frame;
    hide Rcs.Check;
    var m := Frame(j.packet, j.rule, Count(j) - 1);
    assert Emitted(j, m);
    Inv.LastInRange(s);
    Inv.InputValid(s, m);
    InputFaithful(j, s, m);
    t := R.Input(s, m).session;
    FrameAccepted(j, s, Count(j) - 1);
    LastFragment(j);
    StagedAnswers(j, s);
  }

  lemma StagedAnswers(j: Job, s: R.Session)
    requires ValidJob(j) && Idle(j, s) && s.attempts < MAX_ATTEMPTS
    ensures var u := R.Activate(s, j.rule);
            var f := FragmentOf(j.packet, j.rule, Count(j) - 1);
            && f.window <= 1 && R.LastOk(u)
            && var t := R.All1(u, f).session;
               Answer(j, t) && Runs.Keeps(u.(last := LastOf(j)), t)
  {
    hide R.Finalize, R.Marked, FragmentOf, Answer, AllHere, TilesOf, R.Finished, R.Valid, R.All1, LastOf;
    LastFragment(j);
    var u := R.Activate(s, j.rule);
    Runs.ActivatedValid(s, j.rule);
    Inv.LastInRange(u);
    assert Faithful(j, u);
    if u.last.Last? {
      SecondAll1(j, u);
      FinalizeAnswers(j, u);
      Runs.FinalizeKeeps(u);
    } else {
      var v := FirstAll1(j, s);
      Inv.StagedValid(u, FragmentOf(j.packet, j.rule, Count(j) - 1));
      FinalizeAnswers(j, v);
      Runs.FinalizeKeeps(v);
    }
  }

  /** An All-1 frame that repeats the one held has the packet checked again. */
  lemma SecondAll1(j: Job, s: R.Session)
    requires ValidJob(j) && Faithful(j, s) && s.last.Last? && R.LastOk(s)
    ensures var f := FragmentOf(j.packet, j.rule, Count(j) - 1);
            f.window <= 1 && R.All1(s, f) == R.Finalize(s)
  {
    hide R.Finalize, R.Marked, FragmentOf;
    LastFragment(j);
    RegularOnly(j, s);
  }

  // ---------------------------------------------- a round, at the receiver

  /** A round is some regular tiles and a closing message. */
  lemma RoundSplit(j: Job, tiles: seq<nat>) returns (regular: seq<nat>, closing: seq<byte>)
    requires ValidJob(j) && InRange(tiles, Count(j))
    requires Ascending(tiles)
    ensures InRange(regular, Count(j) - 1) && InRange(regular, Count(j))
    ensures forall i :: 0 <= i < Count(j) - 1 ==> (i in regular <==> i in tiles)
    ensures Ascending(regular)
    ensures Round(j.packet, j.rule, tiles) == Frames(j.packet, j.rule, regular) + [closing]
    ensures closing == if Count(j) - 1 in tiles then Frame(j.packet, j.rule, Count(j) - 1)
                       else ControlWire(AckRequest, j.rule, LastWindow(j))
  {
    hide Frame;
    hide ControlWire;
    if Count(j) - 1 in tiles {
      var n := |tiles| - 1;
      assert tiles[n] == Count(j) - 1;
      regular, closing := tiles[..n], Frame(j.packet, j.rule, Count(j) - 1);
      assert Frames(j.packet, j.rule, tiles) == Frames(j.packet, j.rule, regular) + [closing];
      assert tiles == regular + [Count(j) - 1];
    } else {
      regular, closing := tiles, ControlWire(AckRequest, j.rule, LastWindow(j));
    }
  }

  /** The tiles the sender resends on an ACK are the ones not here. */
  lemma MissingHere(j: Job, s: R.Session, a: AckCodec.Ack, i: nat)
    requires ValidJob(j) && Faithful(j, s) && Matches(j, s, a) && i < Count(j)
    ensures var missing := Assigned(Count(j), a.window) - a.bitmap;
            && (i < Count(j) - 1 ==>
                  (i / WINDOW == a.window && TileBit(Count(j), i) in missing
                   <==> i / WINDOW == a.window && i !in s.tiles))
            && (i == Count(j) - 1 && a.window == LastWindow(j) && 0 !in missing ==> s.last.Last?)
  {
    hide TilesOf, LastOf, Assigned;
    if i / WINDOW == a.window && i < Count(j) - 1 {
      TileMarked(j, s, i);
      AssignedBit(j, i);
    }
    MarkedIsAssigned(j, s, a.window);
  }

  /** Bit and tile of a regular tile go together. */
  lemma TileMarked(j: Job, s: R.Session, i: nat)
    requires ValidJob(j) && i < Count(j) - 1
    ensures var b := TileBit(Count(j), i);
            && (b in R.Marked(s.tiles, i / WINDOW) <==> i in s.tiles)
            && (i / WINDOW == LastWindow(j) ==> b != 0)
  {
    var b := TileBit(Count(j), i);
    assert i / WINDOW * WINDOW + WINDOW - 1 - b == i;
  }

  /** The first tile of a round can always be taken in. */
  lemma FirstFits(j: Job, s: R.Session, a: AckCodec.Ack, regular: seq<nat>)
    requires ValidJob(j) && R.Valid(s) && Faithful(j, s) && Matches(j, s, a) && s.last.Last?
    requires InRange(regular, Count(j) - 1) && regular != []
    requires forall i :: 0 <= i < Count(j) - 1 ==>
               (i in regular <==> i / WINDOW == a.window && i !in s.tiles)
    requires Ascending(regular)
    ensures s.staging == Tail(s) || R.HasFirst(s.tiles, regular[0])
  {
    if s.staging != Tail(s) {
      var n, first := s.staging / TILE, regular[0];
      assert first in regular;
      assert first !in s.tiles && n <= first;
      assert n < a.window * WINDOW ==> WINDOW - 1 - n in R.Marked(s.tiles, 0);
      assert n < first ==> n in regular;
      assert forall k :: 0 <= k < |regular| ==> first <= regular[k];
      assert first <= n;
    }
  }

  lemma ReceiverRound(j: Job, s: R.Session, a: AckCodec.Ack, tiles: seq<nat>) returns (t: R.Session)
    requires ValidJob(j) && Idle(j, s) && s.attempts < MAX_ATTEMPTS && Matches(j, s, a)
    requires InRange(tiles, Count(j)) && Ascending(tiles)
    requires forall i :: 0 <= i < Count(j) ==>
               (i in tiles <==> i / WINDOW == a.window &&
                                TileBit(Count(j), i) in Assigned(Count(j), a.window) - a.bitmap)
    ensures t == Hear(s, Round(j.packet, j.rule, tiles))
    ensures R.Valid(t) && Faithful(j, t) && Answer(j, t)
    ensures !t.terminal && !t.delivered && t.limit == s.limit && t.attempts == s.attempts
    ensures forall o :: o in s.tiles ==> o in t.tiles
    ensures forall o :: 0 <= o < Count(j) - 1 && o / WINDOW == a.window ==> o in t.tiles
    ensures a.window == LastWindow(j) ==> t.last.Last?
  {
    hide R.Valid;
    hide Faithful;
    hide Matches;
    hide Answer;
    hide Frame;
    hide ControlWire;
    hide R.Input;
    hide Frames;
    hide Assigned;
    var regular, closing := RoundSplit(j, tiles);
    forall i | 0 <= i < Count(j)
      ensures i < Count(j) - 1 ==> (i in regular <==> i / WINDOW == a.window && i !in s.tiles)
      ensures i == Count(j) - 1 && a.window == LastWindow(j) && i !in tiles ==> s.last.Last?
    {
      MissingHere(j, s, a, i);
      AssignedBit(j, i);
    }
    forall k | 0 <= k < |regular|
      ensures regular[k] !in s.tiles
    {
      assert regular[k] in regular;
    }
    if s.last.Last? && regular != [] {
      FirstFits(j, s, a, regular);
    }
    var u := FeedTiles(j, s, regular);
    if Count(j) - 1 in tiles {
      t := All1Answers(j, u);
    } else {
      t := AckRequestAnswers(j, u);
    }
    HearConcat(s, Frames(j.packet, j.rule, regular), [closing]);
    HearOne(u, closing);
  }

  lemma HearOne(s: R.Session, m: seq<byte>)
    requires R.Valid(s)
    ensures R.LastOk(s) && Hear(s, [m]) == R.Input(s, m).session
  {
    hide R.Input;
    Inv.LastInRange(s);
    Inv.InputValid(s, m);
    assert [m][1..] == [];
  }

  // ------------------------------------------------ what a run makes use of

  function Timeouts(actions: seq<Action>): (n: nat) {
    if actions == [] then 0 else (if actions[0].SenderTimeout? then 1 else 0) + Timeouts(actions[1..])
  }

  function Transmissions(actions: seq<Action>): (n: nat) {
    if actions == [] then 0 else (if actions[0].SenderPoll? then 1 else 0) + Transmissions(actions[1..])
  }

  /** No reset of the receiver, and at most so many timeouts and sender polls. */
  ghost predicate Within(actions: seq<Action>, timeouts: nat, polls: nat) {
    && (forall k :: 0 <= k < |actions| ==> !actions[k].ReceiverRelease? && !actions[k].ReceiverExpire?)
    && Timeouts(actions) <= timeouts && Transmissions(actions) <= polls
  }

  lemma {:induction false} CountConcat(a: seq<Action>, b: seq<Action>)
    ensures Timeouts(a + b) == Timeouts(a) + Timeouts(b)
    ensures Transmissions(a + b) == Transmissions(a) + Transmissions(b)
    decreases |a|
  {
    if a == [] {
      assert a + b == b;
    } else {
      assert (a + b)[1..] == a[1..] + b;
      CountConcat(a[1..], b);
    }
  }

  lemma WithinConcat(a: seq<Action>, b: seq<Action>, t: nat, p: nat, u: nat, q: nat)
    requires Within(a, t, p) && Within(b, u, q)
    ensures Within(a + b, t + u, p + q)
  {
    CountConcat(a, b);
  }

  lemma {:induction false} DeliveriesWithin(messages: seq<seq<byte>>)
    ensures Within(Deliveries(messages), 0, 0)
    decreases |messages|
  {
    if messages != [] {
      assert Deliveries(messages)[1..] == Deliveries(messages[1..]);
      DeliveriesWithin(messages[1..]);
    }
  }

  lemma {:induction false} PollsWithin(n: nat, room: nat)
    ensures Within(SenderPolls(n, room), 0, n)
  {
    if n > 0 {
      assert SenderPolls(n, room)[1..] == SenderPolls(n - 1, room);
      PollsWithin(n - 1, room);
    }
  }

  lemma AnswerWithin(m: seq<byte>)
    ensures Within([ReceiverPoll(10)], 0, 0) && Within([ReceiverPoll(10), ToSender(m)], 0, 0)
  {
    assert [ReceiverPoll(10)][1..] == [];
    assert [ReceiverPoll(10), ToSender(m)][1..] == [ToSender(m)] && [ToSender(m)][1..] == [];
  }

  // --------------------------------------------------- the two together

  function Deliveries(messages: seq<seq<byte>>): (actions: seq<Action>) {
    seq(|messages|, k requires 0 <= k < |messages| => ToReceiver(messages[k]))
  }

  lemma {:induction false} DeliverAll(w: World, messages: seq<seq<byte>>)
    requires ValidWorld(w) && forall m :: m in messages ==> m in w.forward
    ensures Run(w, Deliveries(messages)) == w.(receiver := Hear(w.receiver, messages))
    decreases |messages|
  {
    hide R.Valid;
    hide R.Input;
    if messages != [] {
      var m := messages[0];
      Inv.LastInRange(w.receiver);
      Inv.InputValid(w.receiver, m);
      assert m in messages;
      var v := Act(w, ToReceiver(m));
      assert Deliveries(messages)[1..] == Deliveries(messages[1..]);
      DeliverAll(v, messages[1..]);
    }
  }

  function SenderPolls(n: nat, room: nat): (actions: seq<Action>) {
    seq(n, _ => SenderPoll(room))
  }

  lemma {:induction false} PollAll(w: World, n: nat, room: nat)
    requires ValidWorld(w)
    ensures var (s, out) := S.Run(w.sender, Polls(n, room));
            var v := Run(w, SenderPolls(n, room));
            && v == w.(sender := s, forward := v.forward)
            && (forall m :: m in w.forward || m in out ==> m in v.forward)
    decreases n
  {
    hide R.Valid;
    hide S.Next;
    if n > 0 {
      PollFirst(w.sender, n, room);
      var v := Act(w, SenderPoll(room));
      assert SenderPolls(n, room)[1..] == SenderPolls(n - 1, room);
      PollAll(v, n - 1, room);
    } else {
      assert Polls(0, room) == [];
      assert SenderPolls(0, room) == [];
    }
  }

  /** The sender resends what an ACK that matches the receiver asks for. */
  ghost predicate Resending(j: Job, w: World, a: AckCodec.Ack)
    requires ValidJob(j)
  {
    && Sound(j, w) && w.sender.phase == S.Retransmit && w.sender.position == 0
    && w.sender.window == a.window && w.sender.missing == Assigned(Count(j), a.window) - a.bitmap
    && Idle(j, w.receiver) && Matches(j, w.receiver, a)
  }

  /** The sender waits and the receiver has an answer queued. */
  ghost predicate Queued(j: Job, w: World)
    requires ValidJob(j)
  {
    && Sound(j, w) && w.sender.phase == S.Waiting
    && |j.packet| <= w.receiver.limit && Answer(j, w.receiver)
    && !w.receiver.terminal && !w.receiver.delivered
  }

  /** A round that gets through fills its window. */
  lemma CleanRound(j: Job, w: World, a: AckCodec.Ack) returns (actions: seq<Action>, v: World)
    requires ValidJob(j) && Resending(j, w, a) && w.receiver.attempts < MAX_ATTEMPTS
    ensures v == Run(w, actions) && Queued(j, v) && v.reported == w.reported
    ensures v.sender.attempts == w.sender.attempts + 1
    ensures v.receiver.attempts == w.receiver.attempts
    ensures forall o :: o in w.receiver.tiles ==> o in v.receiver.tiles
    ensures forall o :: 0 <= o < Count(j) - 1 && o / WINDOW == a.window ==> o in v.receiver.tiles
    ensures a.window == LastWindow(j) ==> v.receiver.last.Last?
    ensures Within(actions, 0, WINDOW + 1)
  {
    hide R.Valid, Within;
    hide Faithful;
    hide Matches;
    hide Answer;
    hide Frame;
    hide Round;
    hide Assigned;
    var s := w.sender;
    var tiles := SenderRound(j, s, a);
    var wires := RoundFrames(s);
    RoundExact(s, MAX_MESSAGE);
    PollAll(w, |wires|, MAX_MESSAGE);
    var u := Run(w, SenderPolls(|wires|, MAX_MESSAGE));
    var t := ReceiverRound(j, w.receiver, a, tiles);
    DeliverAll(u, wires);
    actions := SenderPolls(|wires|, MAX_MESSAGE) + Deliveries(wires);
    RoundWithin(s, wires);
    RunConcat(w, SenderPolls(|wires|, MAX_MESSAGE), Deliveries(wires));
    v := Run(w, actions);
    RunSound(j, w, actions);
  }

  lemma RoundWithin(s: S.Sender, wires: seq<seq<byte>>)
    requires S.Valid(s) && s.phase == S.Retransmit && wires == RoundFrames(s)
    ensures Within(SenderPolls(|wires|, MAX_MESSAGE) + Deliveries(wires), 0, WINDOW + 1)
  {
    hide Frame, ControlWire;
    PollsWithin(|wires|, MAX_MESSAGE);
    DeliveriesWithin(wires);
    WithinConcat(SenderPolls(|wires|, MAX_MESSAGE), Deliveries(wires), 0, |wires|, 0, 0);
  }

  /** What the sender is about to resend, as a list of tiles. */
  lemma SenderRound(j: Job, s: S.Sender, a: AckCodec.Ack) returns (tiles: seq<nat>)
    requires ValidJob(j) && SenderFor(j, s) && s.phase == S.Retransmit && s.position == 0
    requires s.window == a.window && s.missing == Assigned(Count(j), a.window) - a.bitmap
    ensures InRange(tiles, Count(j)) && RoundFrames(s) == Round(j.packet, j.rule, tiles)
    ensures Ascending(tiles)
    ensures forall i :: 0 <= i < Count(j) ==>
              (i in tiles <==> i / WINDOW == a.window && TileBit(Count(j), i) in s.missing)
  {
    hide Frame;
    hide Round;
    hide Assigned;
    tiles := MissingTiles(s.count, s.window, s.missing, 0);
    MissingTilesExact(s.count, s.window, s.missing, 0);
  }

  /** A negative ACK that gets through starts the round it asks for. */
  lemma NegativeReply(j: Job, w: World) returns (actions: seq<Action>, v: World)
    requires ValidJob(j) && Queued(j, w) && w.receiver.pending == R.AckDue
    requires w.sender.attempts < MAX_ATTEMPTS
    ensures v == Run(w, actions) && v.reported == w.reported
    ensures Resending(j, v, w.receiver.ack)
    ensures v.sender.attempts == w.sender.attempts
    ensures v.receiver == w.receiver.(pending := R.Idle, attempts := w.receiver.attempts + 1)
    ensures Within(actions, 0, 0)
  {
    hide AckCodec.Encode;
    hide AckCodec.Decode;
    hide R.Input;
    hide Assigned;
    hide TilesOf;
    hide LastOf;
    var a := w.receiver.ack;
    var m := AckCodec.Encode(a);
    EncodedFirst(a);
    UsefulDecodes(j, w.sender, a);
    AckCodec.AbortIsNotAck(ReceiverAbort, j.rule, {}, false, a);
    Inv.NextValid(w.receiver, 10);
    actions := [ReceiverPoll(10), ToSender(m)];
    AnswerWithin(m);
    var u := Act(w, ReceiverPoll(10));
    assert m in u.backward;
    RunTwo(w, ReceiverPoll(10), ToSender(m));
    v := Run(w, actions);
    RunSound(j, w, actions);
  }

  lemma EncodedFirst(a: AckCodec.Ack)
    requires AckCodec.ValidAck(a)
    ensures |AckCodec.Encode(a)| <= 10 && AckCodec.Encode(a)[0] == a.rule
  {
  }

  lemma CompleteReply(j: Job, w: World) returns (actions: seq<Action>, v: World)
    requires ValidJob(j) && Queued(j, w) && w.receiver.pending == R.CompleteDue
    ensures v == Run(w, actions)
    ensures v.sender.status == S.Succeeded && |v.reported| == |w.reported| + 1
    ensures Within(actions, 0, 0)
  {
    hide R.Valid;
    actions := [ReceiverPoll(10), ToSender(CompleteWire(j))];
    AnswerWithin(CompleteWire(j));
    v := Run(w, actions);
    CloseOut(j, w);
  }

  /** A receiver that has delivered, with room for the packet once more. */
  ghost predicate Done(j: Job, s: R.Session)
    requires ValidJob(j)
  {
    R.Valid(s) && Faithful(j, s) && |j.packet| <= s.limit && s.delivered
  }

  /** Ready for an ACK REQ, with at most one negative ACK sent. */
  ghost predicate Askable(j: Job, s: R.Session)
    requires ValidJob(j)
  {
    Done(j, s) || (Idle(j, s) && s.attempts <= 1)
  }

  /** After a delivery an ACK REQ starts over. */
  lemma DoneRestarts(j: Job, s: R.Session)
    requires ValidJob(j) && Done(j, s)
    ensures Idle(j, R.Reset(s)) && R.Reset(s).attempts == 0
    ensures var m := ControlWire(AckRequest, j.rule, LastWindow(j));
            R.LastOk(s) && R.Input(s, m) == R.Input(R.Reset(s), m)
  {
    hide R.AckRequested, R.Finished, R.Finalize, R.Marked;
    var m := ControlWire(AckRequest, j.rule, LastWindow(j));
    Inv.LastInRange(s);
    Inv.InitValid(s.limit);
    EmptyTiles(j);
    assert m[0] == j.rule && m[1] == LastWindow(j) * 128;
    assert R.IsControl(m, AckRequest);
    assert !R.IsControl(m, SenderAbort) && !R.IsControl(m, ReceiverAbort);
  }

  lemma AskedAnswers(j: Job, s: R.Session) returns (t: R.Session)
    requires ValidJob(j) && Askable(j, s)
    ensures t == R.Input(s, ControlWire(AckRequest, j.rule, LastWindow(j))).session
    ensures R.Valid(t) && Faithful(j, t) && Answer(j, t)
    ensures !t.terminal && !t.delivered && t.limit == s.limit && t.attempts <= 1
  {
    hide R.Valid, Faithful, R.Input, Answer;
    if s.delivered {
      DoneRestarts(j, s);
      t := AckRequestAnswers(j, R.Reset(s));
    } else {
      t := AckRequestAnswers(j, s);
    }
  }

  /** A timeout and an ACK REQ that gets through. */
  lemma AskOnce(j: Job, w: World) returns (actions: seq<Action>, v: World)
    requires ValidJob(j) && Sound(j, w) && w.sender.phase == S.Waiting && Askable(j, w.receiver)
    requires w.sender.attempts < MAX_ATTEMPTS
    ensures v == Run(w, actions) && Queued(j, v) && v.reported == w.reported
    ensures v.sender.attempts == w.sender.attempts + 1 && v.receiver.attempts <= 1
    ensures Within(actions, 1, 1)
  {
    hide R.Valid;
    hide R.Input;
    hide Faithful;
    hide Answer;
    var m := ControlWire(AckRequest, j.rule, LastWindow(j));
    var u := Act(Act(w, SenderTimeout), SenderPoll(MAX_MESSAGE));
    assert m in u.forward;
    var t := AskedAnswers(j, w.receiver);
    actions := [SenderTimeout, SenderPoll(MAX_MESSAGE)] + Deliveries([m]);
    AskWithin(m);
    RunTwo(w, SenderTimeout, SenderPoll(MAX_MESSAGE));
    RunConcat(w, [SenderTimeout, SenderPoll(MAX_MESSAGE)], Deliveries([m]));
    DeliverAll(u, [m]);
    HearOne(u.receiver, m);
    v := Run(w, actions);
    RunSound(j, w, actions);
  }

  lemma AskWithin(m: seq<byte>)
    ensures Within([SenderTimeout, SenderPoll(MAX_MESSAGE)] + Deliveries([m]), 1, 1)
  {
    assert SenderPolls(1, MAX_MESSAGE) == [SenderPoll(MAX_MESSAGE)];
    PollsWithin(1, MAX_MESSAGE);
    assert Within([SenderTimeout], 1, 0);
    WithinConcat([SenderTimeout], [SenderPoll(MAX_MESSAGE)], 1, 0, 0, 1);
    assert [SenderTimeout] + [SenderPoll(MAX_MESSAGE)] == [SenderTimeout, SenderPoll(MAX_MESSAGE)];
    DeliveriesWithin([m]);
    WithinConcat([SenderTimeout, SenderPoll(MAX_MESSAGE)], Deliveries([m]), 1, 1, 0, 0);
  }

  /** From a queued answer, with rounds to spare: at most two rounds when
      window 0 is still to be filled, else one. */
  lemma Finish(j: Job, w: World, rounds: nat) returns (actions: seq<Action>)
    requires ValidJob(j) && Queued(j, w)
    requires w.sender.attempts + rounds <= MAX_ATTEMPTS
    requires w.receiver.attempts + rounds < MAX_ATTEMPTS
    requires rounds >= Needed(j, w.receiver)
    ensures Run(w, actions).sender.status == S.Succeeded
    ensures |Run(w, actions).reported| == |w.reported| + 1
    ensures Within(actions, 0, rounds * (WINDOW + 1))
    decreases rounds
  {
    hide Within;
    hide R.Valid;
    hide Faithful;
    hide Matches;
    if w.receiver.pending == R.CompleteDue {
      var v;
      actions, v := CompleteReply(j, w);
      MoreAllowed(actions, 0, 0, 0, rounds * (WINDOW + 1));
    } else {
      var a := w.receiver.ack;
      assert a.window == Ask(j, w.receiver) by {
        AnswerWindow(j, w.receiver);
      }
      var first, v := NegativeReply(j, w);
      var second, u := CleanRound(j, v, a);
      RoundProgress(j, w.receiver, u.receiver);
      var third := Finish(j, u, rounds - 1);
      actions := first + (second + third);
      RunConcat(w, first, second + third);
      RunConcat(v, second, third);
      WithinConcat(second, third, 0, WINDOW + 1, 0, (rounds - 1) * (WINDOW + 1));
      WithinConcat(first, second + third, 0, 0, 0, rounds * (WINDOW + 1));
    }
  }

  lemma MoreAllowed(actions: seq<Action>, t: nat, p: nat, u: nat, q: nat)
    requires Within(actions, t, p) && t <= u && p <= q
    ensures Within(actions, u, q)
  {
  }

  /** Rounds still needed after this answer. */
  ghost function Needed(j: Job, s: R.Session): (n: nat)
    requires ValidJob(j)
  {
    if s.pending == R.CompleteDue then 0 else if Ask(j, s) == LastWindow(j) then 1 else 2
  }

  lemma AnswerWindow(j: Job, s: R.Session)
    requires ValidJob(j) && Answer(j, s) && s.pending == R.AckDue
    ensures s.ack.window == Ask(j, s) <= LastWindow(j)
  {
  }

  lemma RoundProgress(j: Job, s: R.Session, t: R.Session)
    requires ValidJob(j) && Answer(j, s) && s.pending == R.AckDue && Answer(j, t)
    requires forall o :: o in s.tiles ==> o in t.tiles
    requires forall o :: 0 <= o < Count(j) - 1 && o / WINDOW == s.ack.window ==> o in t.tiles
    requires s.ack.window == LastWindow(j) ==> t.last.Last?
    ensures Needed(j, t) < Needed(j, s)
  {
    if Ask(j, s) == LastWindow(j) {
      forall o | 0 <= o < Count(j) - 1
        ensures o in t.tiles
      {
        assert o < WINDOW && LastWindow(j) == 1 ==> WINDOW - 1 - o in R.Marked(s.tiles, 0);
      }
      assert AllHere(j, t);
    } else {
      assert R.Marked(t.tiles, 0) == AckCodec.MASK;
    }
  }

  /** A receiver for the job with room for the packet: it has sent at most one
      negative ACK when it is next idle, or is about to report, or has. */
  ghost predicate Recoverable(j: Job, s: R.Session)
    requires ValidJob(j)
  {
    && R.Valid(s) && Faithful(j, s) && |j.packet| <= s.limit && !s.terminal
    && (|| s.delivered || s.pending == R.CompleteDue
        || (s.pending == R.Idle && s.attempts <= 1) || (s.pending == R.AckDue && s.attempts == 0))
  }

  /** Recovery: after the first pass, whatever the receiver missed of it, there
      is a continuation that ends with a packet reported and the sender
      successful. It needs one timeout, one ACK REQ and two rounds at most, and
      no reset of the receiver. */
  lemma LossIsRepaired(j: Job, w: World) returns (actions: seq<Action>)
    requires ValidJob(j) && Sound(j, w) && Recoverable(j, w.receiver)
    requires w.sender.phase == S.Waiting && w.sender.attempts == 1
    ensures var v := Run(w, actions);
            && v.sender.status == S.Succeeded && |v.reported| == |w.reported| + 1
            && Deliverable(j, v.reported[|w.reported|])
    ensures Within(actions, 1, 1 + 2 * (WINDOW + 1))
  {
    hide R.Valid, Within;
    hide Faithful;
    if w.receiver.pending == R.CompleteDue {
      CompleteAnswers(j, w.receiver);
      var v;
      actions, v := CompleteReply(j, w);
      MoreAllowed(actions, 0, 0, 1, 1 + 2 * (WINDOW + 1));
    } else {
      var poll, u := Quiet(j, w);
      var first, v := AskOnce(j, u);
      var rest := Finish(j, v, 2);
      actions := poll + (first + rest);
      RunConcat(w, poll, first + rest);
      RunConcat(u, first, rest);
      WithinConcat(first, rest, 1, 1, 0, 2 * (WINDOW + 1));
      WithinConcat(poll, first + rest, 0, 0, 1, 1 + 2 * (WINDOW + 1));
    }
    RunSound(j, w, actions);
  }

  lemma CompleteAnswers(j: Job, s: R.Session)
    requires ValidJob(j) && R.Valid(s) && Faithful(j, s) && s.pending == R.CompleteDue
    ensures s.ack == CompleteAck(j) && !s.delivered && Answer(j, s)
  {
    hide R.Finished, R.Parked;
    LastWindowOf(j, s);
  }

  /** A queued negative ACK may as well be lost. */
  lemma Quiet(j: Job, w: World) returns (actions: seq<Action>, v: World)
    requires ValidJob(j) && Sound(j, w) && Recoverable(j, w.receiver) && w.receiver.pending != R.CompleteDue
    ensures v == Run(w, actions) && Sound(j, v) && Askable(j, v.receiver)
    ensures v.sender == w.sender && v.reported == w.reported
    ensures Within(actions, 0, 0)
  {
    if w.receiver.pending != R.AckDue {
      actions, v := [], w;
      assert w.receiver.delivered ==> w.receiver.pending == R.Idle;
    } else {
      hide AckCodec.Encode;
      hide TilesOf;
      hide LastOf;
      actions := [ReceiverPoll(10)];
      AnswerWithin([]);
      Inv.NextValid(w.receiver, 10);
      EncodedFirst(w.receiver.ack);
      v := Act(w, ReceiverPoll(10));
      ActSound(j, w, ReceiverPoll(10));
      assert [ReceiverPoll(10)][1..] == [];
      assert Run(v, []) == v;
    }
  }
}

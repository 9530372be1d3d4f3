/** The receiver's invariant holds after every call, whatever the input. */
module SessionInvariant {
  import opened Bits
  import opened FragmentCodec
  import opened Tiles
  import opened Session
  import AckCodec
  import Rcs

  /** A session in which an answer may be queued. */
  ghost predicate Open(s: Session) {
    Valid(s) && ValidRule(s.rule) && !s.delivered && !s.terminal
  }

  lemma InitValid(limit: nat)
    requires 0 < limit <= MAX_PACKET
    ensures Valid(Init(limit))
  {
  }

  lemma LastInRange(s: Session)
    requires Valid(s)
    ensures LastOk(s)
  {
  }

  lemma AbortValid(s: Session, rule: byte)
    requires Valid(s) && ValidRule(rule) && !s.delivered && !s.terminal
    ensures Valid(QueueAbort(s, rule))
  {
  }

  lemma NegativeValid(s: Session, window: nat, bitmap: set<nat>, report: Report)
    requires Open(s) && window <= 1
    ensures Valid(Negative(s, window, bitmap, report).session)
  {
  }

  /** With the All-1 tile here and the check reached, the tiles are exactly
      the first n: nothing is marked beyond the contiguous run. */
  lemma PrefixExact(s: Session)
    requires Valid(s) && s.last.Last?
    requires s.last.window == 1 ==> Marked(s.tiles, 0) == AckCodec.MASK
    requires var bits := Marked(s.tiles, s.last.window);
             forall b :: WINDOW - Span(bits, WINDOW) <= b < WINDOW ==> b in bits
    ensures IsPrefix(s, s.last.window * WINDOW + Span(Marked(s.tiles, s.last.window), WINDOW))
  {
    var w := s.last.window;
    var bits := Marked(s.tiles, w);
    var k := Span(bits, WINDOW);
    ContiguousHolds(s.tiles, w, k);
    forall o | o in s.tiles
      ensures o < w * WINDOW + k
    {
      if o >= w * WINDOW {
        assert WINDOW - 1 - (o - w * WINDOW) in bits;
      }
    }
  }

  lemma FinalizeValid(s: Session)
    requires Open(s) && s.last.Last?
    ensures Valid(Finalize(s).session)
  {
    hide CheckPacket;
    hide Negative;
    hide QueueAbort;
    hide ValidPending;
    var w := s.last.window;
    if w == 1 && Marked(s.tiles, 0) != AckCodec.MASK {
      NegativeValid(s, 0, Marked(s.tiles, 0), QUIET);
    } else {
      var bits := Marked(s.tiles, w);
      var k := Span(bits, WINDOW);
      if exists b :: WINDOW - k <= b < WINDOW && b !in bits {
        NegativeValid(s, w, bits + {0}, QUIET);
      } else {
        var n := w * WINDOW + k;
        if n * TILE + |s.last.tile| > s.limit || n * TILE > s.staging {
          AbortValid(s, s.rule);
        } else {
          PrefixExact(s);
          CheckPacketValid(s, n, k);
        }
      }
    }
  }

  lemma {:induction false} AssembleLength(tiles: map<nat, seq<byte>>, n: nat)
    requires HasFirst(tiles, n) && forall o :: o in tiles ==> |tiles[o]| == TILE
    ensures |Assemble(tiles, n)| == n * TILE
  {
    if n > 0 {
      AssembleLength(tiles, n - 1);
    }
  }

  lemma CheckPacketValid(s: Session, n: nat, k: nat)
    requires Open(s) && s.last.Last? && IsPrefix(s, n) && HasFirst(s.tiles, n)
    requires n * TILE + |s.last.tile| <= s.limit
    ensures Valid(CheckPacket(s.(staging := n * TILE), n, k).session)
  {
    var t := s.(staging := n * TILE);
    RestagedOpen(s, n);
    var packet := Assemble(t.tiles, n) + t.last.tile;
    if Rcs.Check(packet) == t.last.rcs {
      AssembleLength(s.tiles, n);
      CompleteValid(t, n, packet);
    } else {
      hide Valid, Assemble, Rcs.Check;
      var bits := Marked(t.tiles, t.last.window);
      NegativeValid(t, t.last.window, if k > 1 then bits else bits + {0}, QUIET.(checked := true));
    }
  }

  lemma RestagedOpen(s: Session, n: nat)
    requires Open(s) && s.last.Last? && IsPrefix(s, n) && n * TILE + |s.last.tile| <= s.limit
    ensures Open(s.(staging := n * TILE))
  {
    hide Assemble, Rcs.Check;
    var t := s.(staging := n * TILE);
    assert t.staging / TILE == n && Parked(t.tiles, t.staging, t.limit - |t.last.tile|);
    if Finished(s) {
      var m: nat :| IsPrefix(s, m) && s.packet == Assemble(s.tiles, m) + s.last.tile;
      assert IsPrefix(t, m);
    }
  }

  lemma CompleteValid(s: Session, n: nat, packet: seq<byte>)
    requires Open(s) && s.last.Last? && IsPrefix(s, n) && HasFirst(s.tiles, n)
    requires packet == Assemble(s.tiles, n) + s.last.tile && Rcs.Check(packet) == s.last.rcs
    requires |packet| <= s.limit
    ensures Valid(QueueAck(s.(packet := packet), s.last.window, {}, true))
  {
    hide Assemble, Rcs.Check, Parked;
    var u := QueueAck(s.(packet := packet), s.last.window, {}, true);
    assert IsPrefix(u, n);
    assert Finished(u);
  }

  lemma StagedValid(s: Session, f: Fragment)
    requires Open(s) && s.pending == Idle && !s.last.Last?
    requires ValidFragment(f) && f.fcn == ALL_1 && |f.tile| <= s.limit
    requires f.window * WINDOW + WINDOW - 1 !in s.tiles && (f.window == 0 ==> Marked(s.tiles, 1) == {})
    ensures Valid(s.(last := Last(f.window, f.rcs, f.tile), staging := s.limit - |f.tile|))
  {
    forall o | o in s.tiles
      ensures o < f.window * WINDOW + WINDOW - 1
    {
      assert o >= WINDOW ==> WINDOW - 1 - (o - WINDOW) in Marked(s.tiles, 1);
    }
  }

  lemma All1Valid(s: Session, f: Fragment)
    requires Open(s) && s.pending == Idle && s.active && f.rule == s.rule
    requires ValidFragment(f) && f.fcn == ALL_1
    ensures Valid(All1(s, f).session)
  {
    hide Finalize;
    hide Valid;
    hide Marked;
    LastInRange(s);
    AbortValid(s, f.rule);
    if f.window * WINDOW + WINDOW - 1 !in s.tiles {
      if s.last.Last? {
        FinalizeValid(s);
      } else if !(f.window == 0 && Marked(s.tiles, 1) != {}) &&
                |f.tile| + TILE * |s.tiles| <= s.limit {
        var t := s.(last := Last(f.window, f.rcs, f.tile), staging := s.limit - |f.tile|);
        StagedValid(s, f);
        FinalizeValid(t);
      }
    }
  }

  lemma StoreValid(s: Session, f: Fragment, o: nat)
    requires Open(s) && s.pending == Idle && f.rule == s.rule
    requires o < MAX_TILES - 1 && |f.tile| == TILE && (o + 1) * TILE <= s.limit
    requires s.last.Last? ==> o < s.last.window * WINDOW + WINDOW - 1 && (o + 1) * TILE <= s.staging
    ensures Valid(Store(s, f, o).session)
  {
    AbortValid(s, f.rule);
  }

  lemma RegularValid(s: Session, f: Fragment)
    requires Open(s) && s.pending == Idle && s.active && f.rule == s.rule
    requires ValidFragment(f) && f.fcn != ALL_1
    ensures Valid(Regular(s, f).session)
  {
    hide Store;
    AbortValid(s, f.rule);
    var o := f.window * WINDOW + WINDOW - 1 - f.fcn;
    var end := (o + 1) * TILE;
    if end <= s.limit {
      if !s.last.Last? || end <= s.staging {
        if s.last.Last? ==> o < s.last.window * WINDOW + WINDOW - 1 {
          StoreValid(s, f, o);
        }
      } else if end <= s.limit - |s.last.tile| && o < s.last.window * WINDOW + WINDOW - 1 {
        StoreValid(s.(staging := s.limit - |s.last.tile|), f, o);
      }
    }
  }

  lemma RepeatedValid(s: Session, m: seq<byte>)
    requires Open(s) && |m| >= 2 && m[0] == s.rule
    ensures Valid(Repeated(s, m).session)
  {
    hide Finalize;
    AbortValid(s, s.rule);
    if s.last.Last? {
      FinalizeValid(s);
    }
  }

  lemma AckRequestedValid(s: Session, rule: byte)
    requires Valid(s) && !s.delivered && !s.terminal && s.pending == Idle && ValidRule(rule)
    ensures Valid(AckRequested(s, rule).session)
  {
    hide Finalize;
    hide Negative;
    var t := Activate(s, rule);
    assert Open(t);
    if t.last.Last? {
      FinalizeValid(t);
    } else {
      NegativeValid(t, 0, Marked(t.tiles, 0), QUIET);
      NegativeValid(t, 1, Marked(t.tiles, 1), QUIET);
    }
  }

  lemma AcceptValid(s: Session, m: seq<byte>, request: bool)
    requires Valid(s) && !s.delivered && !s.terminal && |m| >= 2 && ValidRule(m[0])
    requires s.active || s.pending != Idle ==> s.rule == m[0]
    ensures Valid(Accept(s, m, request).session)
  {
    hide Repeated;
    hide AckRequested;
    hide All1;
    hide Regular;
    hide Decode;
    if s.pending != Idle {
      RepeatedValid(s, m);
    } else if request {
      AckRequestedValid(s, m[0]);
    } else {
      AbortValid(s, m[0]);
      if Decode(m, TILE).Ok? {
        EncodeDecode(m, TILE);
        var f := Decode(m, TILE).value;
        assert f.rule == m[0] by {
          assert Encode(f)[0] == f.rule;
        }
        var t := Activate(s, m[0]);
        assert Open(t);
        if f.fcn == ALL_1 {
          All1Valid(t, f);
        } else {
          RegularValid(t, f);
        }
      }
    }
  }

  /** No input of any kind breaks the invariant. */
  lemma InputValid(s: Session, m: seq<byte>)
    requires Valid(s)
    ensures Valid(Input(s, m).session)
  {
    hide Accept;
    InitValid(s.limit);
    if |m| >= 2 && ValidRule(m[0]) && !s.terminal {
      if s.delivered {
        AcceptValid(Reset(s), m, IsControl(m, AckRequest));
      } else if s.active || s.pending != Idle ==> s.rule == m[0] {
        AcceptValid(s, m, IsControl(m, AckRequest));
      }
    }
  }

  lemma NextValid(s: Session, room: nat)
    requires Valid(s)
    ensures Valid(Next(s, room).session)
  {
    InitValid(s.limit);
    if s.pending == CompleteDue {
      var n: nat :| IsPrefix(s, n) && s.packet == Assemble(s.tiles, n) + s.last.tile;
      assert IsPrefix(s.(pending := Idle, active := false, delivered := true), n);
    }
  }

  lemma ExpireValid(s: Session)
    requires Valid(s)
    ensures Valid(Expire(s).session)
  {
  }
}

/** SCHC ACKs and their compressed bitmap: schc_ack_encode and schc_ack_decode.
    A bitmap is the set of its one bits; bit 62 - p stands for tile position p
    of the window, and bit 0 of the last window for the All-1 tile. */
module AckCodec {
  import opened Bits
  import opened FragmentCodec

  datatype Ack = Ack(rule: byte, window: nat, complete: bool, bitmap: set<nat>)

  const MASK: set<nat> := set b: nat | 0 <= b < WINDOW

  /** What schc_ack_encode accepts. */
  predicate ValidAck(a: Ack) {
    ValidRule(a.rule) && a.window <= 1 && (a.complete ==> a.bitmap == {})
  }

  /** The first bit at or above `from` that is clear, at most 63. */
  function LowRun(bitmap: set<nat>, from: nat): (n: nat)
    requires from <= WINDOW
    ensures from <= n <= WINDOW
    ensures forall b :: from <= b < n ==> b in bitmap
    ensures n < WINDOW ==> n !in bitmap
    decreases WINDOW - from, bitmap
  {
    if from < WINDOW && from in bitmap then LowRun(bitmap, from + 1) else from
  }

  function Kept(bitmap: set<nat>): (kept: nat)
    ensures kept <= WINDOW
  {
    WINDOW - LowRun(bitmap, 0)
  }

  function BitCount(kept: nat): (n: nat)
    ensures n % 8 == 0 && n >= 8 && n >= 2 + kept
  {
    if kept == WINDOW then 72 else (2 + kept + 7) / 8 * 8
  }

  /** Bits of an incomplete ACK behind the rule ID: W, C = 0, the bitmap up to
      its last zero, then ones up to the byte boundary. A bitmap whose last bit
      is zero is sent in full and padded with seven zeros. */
  function AckBits(window: nat, bitmap: set<nat>): (bits: seq<bool>)
    ensures |bits| == BitCount(Kept(bitmap))
  {
    var kept := Kept(bitmap);
    var length := BitCount(kept);
    seq(length, i requires 0 <= i < length =>
        if i == 0 then window == 1
        else if i == 1 then false
        else if i - 2 < kept then 64 - i in bitmap
        else kept != WINDOW)
  }

  function Encode(a: Ack): (wire: seq<byte>)
    requires ValidAck(a)
    ensures 2 <= |wire| <= 10
  {
    if a.complete then [a.rule, a.window * 128 + 64]
    else [a.rule] + Pack(AckBits(a.window, a.bitmap * MASK))
  }

  /** Section 8.3.2.1 of RFC 8724: the bits that were cut off are ones. */
  function Restore(bits: seq<bool>): (bitmap: set<nat>)
    ensures bitmap <= MASK
  {
    set b | b in MASK && Carried(bits, b)
  }

  predicate Carried(bits: seq<bool>, b: nat) {
    b < WINDOW && (|bits| <= WINDOW - 1 - b || bits[WINDOW - 1 - b])
  }

  /** schc_ack_decode; `expected` is the bitmap it checks against, if any. */
  function Decode(data: seq<byte>, expected: set<nat>, check: bool): (r: Result<Ack, Error>) {
    if |data| < 2 then Err(TooShort)
    else if |data| > 10 || !ValidRule(data[0]) then Err(AckMalformed)
    else
      var window := data[1] / 128;
      if data[1] / 64 % 2 == 1 then
        if |data| != 2 || data[1] % 64 != 0 then Err(AckMalformed)
        else Ok(Ack(data[0], window, true, {}))
      else DecodeBitmap(data, BitmapBits(data), expected, check)
  }

  /** The bits behind W and C. */
  function BitmapBits(data: seq<byte>): (bits: seq<bool>)
    requires |data| >= 2
    ensures |bits| == 8 * (|data| - 1) - 2
  {
    ByteBits(data[1..])[2..]
  }

  function DecodeBitmap(data: seq<byte>, bits: seq<bool>, expected: set<nat>, check: bool)
    : (r: Result<Ack, Error>)
    requires |data| >= 2 && ValidRule(data[0])
  {
    if exists i :: WINDOW <= i < |bits| && bits[i] then Err(AckMalformed)
    else
      var a := Ack(data[0], data[1] / 128, false, Restore(bits));
      if Encode(a) != data then Err(AckNoncanonical)
      else if check && !(a.bitmap <= expected * MASK) then Err(AckUnassigned)
      else Ok(a)
  }

  // ------------------------------------------------------------ round trip

  lemma RestoreAckBits(window: nat, bitmap: set<nat>)
    requires bitmap <= MASK
    ensures Restore(AckBits(window, bitmap)[2..]) == bitmap
    ensures forall i :: 65 <= i < |AckBits(window, bitmap)| ==> !AckBits(window, bitmap)[i]
  {
    var kept := Kept(bitmap);
    var bits := AckBits(window, bitmap)[2..];
    forall b | 0 <= b < WINDOW
      ensures b in Restore(bits) <==> b in bitmap
    {
      if WINDOW - 1 - b < |bits| {
        assert bits[WINDOW - 1 - b] == AckBits(window, bitmap)[64 - b];
      }
    }
  }

  lemma HeaderByte(b: byte)
    ensures Octet(b)[0] == (b / 128 == 1)
    ensures Octet(b)[1] == (b / 64 % 2 == 1)
  {
    Pow2Small();
    ShrIsDivision(b, 7);
    ShrIsDivision(b, 6);
  }

  lemma EncodeHeader(a: Ack)
    requires ValidAck(a) && !a.complete
    ensures ByteBits(Encode(a)[1..]) == AckBits(a.window, a.bitmap * MASK)
    ensures Encode(a)[1] / 128 == a.window && Encode(a)[1] / 64 % 2 == 0
  {
    var tail := Encode(a)[1..];
    assert tail == Pack(AckBits(a.window, a.bitmap * MASK));
    HeaderByte(tail[0]);
    assert ByteBits(tail)[..8] == Octet(tail[0]);
    assert ByteBits(tail)[0] == Octet(tail[0])[0] && ByteBits(tail)[1] == Octet(tail[0])[1];
  }

  /** Decoding an encoded ACK gives back window, flag and masked bitmap. */
  lemma DecodeEncode(a: Ack, expected: set<nat>, check: bool)
    requires ValidAck(a)
    requires check ==> a.bitmap * MASK <= expected
    ensures Decode(Encode(a), expected, check) == Ok(a.(bitmap := a.bitmap * MASK))
  {
    if a.complete {
      DecodeEncodeComplete(a, expected, check);
    } else {
      EncodeHeader(a);
      DecodeEncodeBitmap(a, expected, check);
    }
  }

  lemma DecodeEncodeComplete(a: Ack, expected: set<nat>, check: bool)
    requires ValidAck(a) && a.complete
    ensures Decode(Encode(a), expected, check) == Ok(a.(bitmap := a.bitmap * MASK))
  {
    assert a.bitmap * MASK == {};
    assert Encode(a)[1] / 128 == a.window;
  }

  lemma DecodeEncodeBitmap(a: Ack, expected: set<nat>, check: bool)
    requires ValidAck(a) && !a.complete
    requires check ==> a.bitmap * MASK <= expected
    ensures DecodeBitmap(Encode(a), AckBits(a.window, a.bitmap * MASK)[2..], expected, check) ==
            Ok(a.(bitmap := a.bitmap * MASK))
  {
    EncodeHeader(a);
    var masked := a.bitmap * MASK;
    RestoreAckBits(a.window, masked);
    var all := AckBits(a.window, masked);
    assert forall i :: WINDOW <= i < |all[2..]| ==> !all[2..][i];
    assert masked * MASK == masked;
  }

  /** Only canonical byte strings decode, so decoding is injective. */
  lemma DecodeCanonical(data: seq<byte>, expected: set<nat>, check: bool)
    requires Decode(data, expected, check).Ok?
    ensures ValidAck(Decode(data, expected, check).value)
    ensures Decode(data, expected, check).value.bitmap <= MASK
    ensures check ==> Decode(data, expected, check).value.bitmap <= expected
    ensures Encode(Decode(data, expected, check).value) == data
  {
    if data[1] / 64 % 2 == 1 {
      assert data == [data[0], data[1]];
      assert data[1] == data[1] / 128 * 128 + 64;
    }
  }

  lemma DecodeInjective(x: seq<byte>, y: seq<byte>, expected: set<nat>, check: bool)
    requires Decode(x, expected, check).Ok?
    requires Decode(x, expected, check) == Decode(y, expected, check)
    ensures x == y
  {
    DecodeCanonical(x, expected, check);
    DecodeCanonical(y, expected, check);
  }

  /** No byte string that the restore rule expands to the bitmap is shorter. */
  lemma EncodeShortest(a: Ack, data: seq<byte>)
    requires ValidAck(a) && !a.complete && |data| >= 2
    requires Restore(BitmapBits(data)) == a.bitmap * MASK
    ensures |Encode(a)| <= |data|
  {
    var bitmap := a.bitmap * MASK;
    var count := 8 * (|data| - 1) - 2;
    if count < WINDOW {
      forall b | 0 <= b <= WINDOW - 1 - count
        ensures b in bitmap
      {
        assert b in Restore(BitmapBits(data));
      }
      assert Kept(bitmap) <= count;
    }
  }

  lemma AbortIsNotAck(c: Control, rule: byte, expected: set<nat>, check: bool, a: Ack)
    requires c.SenderAbort? || c.ReceiverAbort?
    ensures Decode(ControlWire(c, rule, 0), expected, check).Err?
    ensures ValidAck(a) ==> Encode(a) != ControlWire(c, rule, 0)
  {
    var wire := ControlWire(c, rule, 0);
    assert wire[1] % 64 != 0 && wire[1] / 64 % 2 == 1;
    if ValidAck(a) {
      SecondByte(a);
    }
  }

  lemma SecondByte(a: Ack)
    requires ValidAck(a)
    ensures Encode(a)[1] / 64 % 2 == 1 ==> Encode(a)[1] % 64 == 0
  {
    if !a.complete {
      EncodeHeader(a);
    }
  }

  /** An ACK REQ does decode as an ACK, so the two directions of a session
      must not share a channel: its two zero-padded bytes are a canonical ACK
      with the first six tiles missing. */
  lemma AckRequestReadsAsAck(rule: byte, window: nat, bitmap: set<nat>)
    requires ValidRule(rule) && window <= 1
    requires forall b :: b in bitmap <==> 0 <= b < 57
    ensures Decode(ControlWire(AckRequest, rule, window), {}, false) ==
            Ok(Ack(rule, window, false, bitmap))
  {
    var a := Ack(rule, window, false, bitmap);
    assert bitmap * MASK == bitmap;
    assert 57 !in bitmap && Kept(bitmap) == 6;
    AckRequestBits(window, bitmap);
    ByteBitsInjective([window * 128], Pack(AckBits(window, bitmap)));
    assert Encode(a) == ControlWire(AckRequest, rule, window);
    DecodeEncode(a, {}, false);
  }

  lemma AckRequestBits(window: nat, bitmap: set<nat>)
    requires window <= 1 && Kept(bitmap) == 6
    requires forall b :: b in bitmap <==> 0 <= b < 57
    ensures ByteBits([window * 128]) == AckBits(window, bitmap)
  {
    var tail: seq<byte> := [window * 128];
    assert tail[1..] == [];
    SplitTop(window * 128);
    forall i | 0 < i < 8
      ensures !Octet(window * 128)[i]
    {
      assert Octet(window * 128)[i] == LowBits(0, 7)[i - 1];
      ShrZero(7 - i);
    }
  }

  lemma {:induction false} ShrZero(k: nat)
    ensures Shr(0, k) == 0
  {
    if k != 0 {
      ShrZero(k - 1);
    }
  }

  // ------------------------------------------------------ imperative code

  lemma {:induction false} ToNatSet(s: seq<bool>, k: nat)
    requires k < |s| && !s[k]
    ensures ToNat(s[k := true]) == ToNat(s) + Pow2(|s| - 1 - k)
  {
    var n := |s| - 1;
    if k == n {
      assert s[k := true][..n] == s[..n];
    } else {
      ToNatSet(s[..n], k);
      assert s[k := true][..n] == s[..n][k := true];
    }
  }

  /** b | 1 << (7 - k) */
  function OrBit(b: byte, k: nat): (r: byte)
    requires k < 8
    ensures Octet(r) == Octet(b)[k := true]
  {
    OctetValue(b);
    if Octet(b)[k] then b
    else
      ToNatSet(Octet(b), k);
      LowBitsToNat(Octet(b)[k := true]);
      Pow2Small();
      b + Pow2(7 - k)
  }

  lemma SetBitBits(s: seq<byte>, bit: nat)
    requires bit < 8 * |s|
    ensures ByteBits(s[bit / 8 := OrBit(s[bit / 8], bit % 8)]) == ByteBits(s)[bit := true]
  {
    var t := s[bit / 8 := OrBit(s[bit / 8], bit % 8)];
    forall i | 0 <= i < 8 * |s|
      ensures ByteBits(t)[i] == ByteBits(s)[bit := true][i]
    {
      ByteBitsAt(s, i);
      ByteBitsAt(t, i);
    }
  }

  /** set_bit(&out[1], bit), where the message takes `needed` bytes. */
  method SetBit(out: array<byte>, ghost needed: nat, bit: nat)
    requires 1 <= needed <= out.Length && bit < 8 * (needed - 1)
    modifies out
    ensures out[0] == old(out[0])
    ensures ByteBits(out[1..needed]) == old(ByteBits(out[1..needed]))[bit := true]
    ensures forall k :: needed <= k < out.Length ==> out[k] == old(out[k])
  {
    SetBitBits(out[1..needed], bit);
    ghost var was := out[1..needed];
    out[1 + bit / 8] := OrBit(out[1 + bit / 8], bit % 8);
    assert out[1..needed] == was[bit / 8 := OrBit(was[bit / 8], bit % 8)];
  }

  lemma {:induction false} NothingSet(s: seq<byte>)
    requires forall k :: 0 <= k < |s| ==> s[k] == 0
    ensures forall i :: 0 <= i < 8 * |s| ==> !ByteBits(s)[i]
  {
    forall i | 0 <= i < 8 * |s|
      ensures !ByteBits(s)[i]
    {
      ByteBitsAt(s, i);
      ShrZero(7 - i % 8);
    }
  }

  method AckEncode(a: Ack, out: array<byte>) returns (r: Result<nat, Error>)
    modifies out
    ensures r == if !ValidAck(a) then Err(InvalidArgument)
                 else if out.Length < |Encode(a)| then Err(BufferTooSmall)
                 else Ok(|Encode(a)|)
    ensures r.Ok? ==> out[..r.value] == Encode(a)
    ensures r.Ok? ==> forall k :: r.value <= k < out.Length ==> out[k] == old(out[k])
    ensures r.Err? ==> out[..] == old(out[..])
  {
    if !ValidRule(a.rule) || a.window > 1 || (a.complete && a.bitmap != {}) {
      return Err(InvalidArgument);
    }
    if a.complete {
      if out.Length < 2 { return Err(BufferTooSmall); }
      out[0] := a.rule;
      out[1] := a.window * 128 + 64;
      return Ok(2);
    }
    var bitmap := a.bitmap * MASK;
    var kept, restored, needed := AckLength(a.window, bitmap);
    if out.Length < needed { return Err(BufferTooSmall); }
    WriteBitmap(a.rule, a.window, bitmap, kept, restored, needed, out);
    return Ok(needed);
  }

  method AckLength(ghost window: nat, bitmap: set<nat>)
    returns (kept: nat, restored: nat, needed: nat)
    ensures kept == Kept(bitmap)
    ensures 8 * (needed - 1) == |AckBits(window, bitmap)|
    ensures restored == if kept == WINDOW then 0 else 8 * (needed - 1) - 2 - kept
  {
    var trailing := 0;
    while trailing < WINDOW && trailing in bitmap
      invariant 0 <= trailing <= WINDOW
      invariant LowRun(bitmap, trailing) == LowRun(bitmap, 0)
    {
      trailing := trailing + 1;
    }
    kept := WINDOW;
    restored := 0;
    var padding := 7;
    if trailing != 0 {
      kept := kept - trailing;
      restored := (8 - (2 + kept) % 8) % 8;
      padding := 0;
    }
    needed := 1 + (2 + kept + restored + padding) / 8;
    RoundUp(2 + kept);
  }

  lemma RoundUp(n: nat)
    ensures n + (8 - n % 8) % 8 == (n + 7) / 8 * 8
  {
  }

  method WriteBitmap(rule: byte, window: nat, bitmap: set<nat>, kept: nat, restored: nat,
                     needed: nat, out: array<byte>)
    requires kept == Kept(bitmap) && 1 <= needed <= out.Length
    requires 8 * (needed - 1) == |AckBits(window, bitmap)|
    requires restored == if kept == WINDOW then 0 else 8 * (needed - 1) - 2 - kept
    modifies out
    ensures out[..needed] == [rule] + Pack(AckBits(window, bitmap))
    ensures forall k :: needed <= k < out.Length ==> out[k] == old(out[k])
  {
    hide ByteBits, Pack;
    WriteHeader(rule, window, bitmap, needed, out);
    WriteKept(window, bitmap, kept, needed, out);
    WriteOnes(window, bitmap, kept, restored, needed, out);
    assert ByteBits(out[1..needed]) == AckBits(window, bitmap);
    ByteBitsInjective(out[1..needed], Pack(AckBits(window, bitmap)));
    assert out[..needed] == [out[0]] + out[1..needed];
  }

  method WriteHeader(rule: byte, window: nat, ghost bitmap: set<nat>, needed: nat, out: array<byte>)
    requires 2 <= needed <= out.Length
    modifies out
    ensures out[0] == rule
    ensures forall k :: needed <= k < out.Length ==> out[k] == old(out[k])
    ensures Written(ByteBits(out[1..needed]), window, bitmap, 0, 0)
  {
    forall i | 0 <= i < needed {
      out[i] := 0;
    }
    out[0] := rule;
    NothingSet(out[1..needed]);
    if window == 1 {
      SetBit(out, needed, 0);
    }
  }

  method WriteKept(ghost window: nat, bitmap: set<nat>, kept: nat, ghost needed: nat,
                   out: array<byte>)
    requires kept <= WINDOW && 1 <= needed <= out.Length && 2 + kept <= 8 * (needed - 1)
    requires Written(ByteBits(out[1..needed]), window, bitmap, 0, 0)
    modifies out
    ensures out[0] == old(out[0])
    ensures forall k :: needed <= k < out.Length ==> out[k] == old(out[k])
    ensures Written(ByteBits(out[1..needed]), window, bitmap, kept, 0)
  {
    for position := 0 to kept
      invariant out[0] == old(out[0])
      invariant forall k :: needed <= k < out.Length ==> out[k] == old(out[k])
      invariant Written(ByteBits(out[1..needed]), window, bitmap, position, 0)
    {
      if WINDOW - 1 - position in bitmap {
        SetBit(out, needed, 2 + position);
      }
    }
  }

  method WriteOnes(ghost window: nat, ghost bitmap: set<nat>, kept: nat, restored: nat,
                   ghost needed: nat, out: array<byte>)
    requires kept <= WINDOW && 1 <= needed <= out.Length && 2 + kept + restored <= 8 * (needed - 1)
    requires Written(ByteBits(out[1..needed]), window, bitmap, kept, 0)
    modifies out
    ensures out[0] == old(out[0])
    ensures forall k :: needed <= k < out.Length ==> out[k] == old(out[k])
    ensures Written(ByteBits(out[1..needed]), window, bitmap, kept, restored)
  {
    for position := 0 to restored
      invariant out[0] == old(out[0])
      invariant forall k :: needed <= k < out.Length ==> out[k] == old(out[k])
      invariant Written(ByteBits(out[1..needed]), window, bitmap, kept, position)
    {
      SetBit(out, needed, 2 + kept + position);
    }
  }

  /** The bits on the wire after `kept` bitmap bits and `ones` restored ones. */
  ghost predicate Written(bits: seq<bool>, window: nat, bitmap: set<nat>, kept: nat, ones: nat) {
    forall i :: 0 <= i < |bits| ==>
      bits[i] == if i == 0 then window == 1
                 else if i == 1 then false
                 else if i - 2 < kept then 64 - i in bitmap
                 else i - 2 < kept + ones
  }

  /** get_bit(&data[1], bit) */
  function GetBit(data: seq<byte>, bit: nat): (b: bool)
    requires 1 + bit / 8 < |data|
    ensures b == ByteBits(data[1..])[bit]
  {
    ByteBitsAt(data[1..], bit);
    Shr(data[1 + bit / 8], 7 - bit % 8) % 2 == 1
  }

  /** The bitmap loops of schc_ack_decode; `padded` when a padding bit is set. */
  method ReadBitmap(data: seq<byte>) returns (bitmap: set<nat>, padded: bool)
    requires 2 <= |data| <= 10
    ensures padded == exists i :: WINDOW <= i < |BitmapBits(data)| && BitmapBits(data)[i]
    ensures !padded ==> bitmap == Restore(BitmapBits(data))
  {
    var count := (|data| - 1) * 8 - 2;
    ghost var bits := BitmapBits(data);
    bitmap := {};
    padded := false;
    var carried := count;
    if count >= WINDOW {
      var padding := count - WINDOW;
      for i := 0 to padding
        invariant forall k :: WINDOW <= k < WINDOW + i ==> !bits[k]
      {
        if GetBit(data, 2 + WINDOW + i) {
          assert bits[WINDOW + i];
          return {}, true;
        }
      }
      carried := WINDOW;
    }
    for position := 0 to carried
      invariant forall b :: b in bitmap <==> WINDOW - 1 - position < b < WINDOW && bits[WINDOW - 1 - b]
    {
      if GetBit(data, 2 + position) {
        bitmap := bitmap + {WINDOW - 1 - position};
      }
    }
    for position := carried to WINDOW
      invariant forall b :: b in bitmap <==>
                            WINDOW - 1 - position < b < WINDOW && (carried <= WINDOW - 1 - b || bits[WINDOW - 1 - b])
    {
      bitmap := bitmap + {WINDOW - 1 - position};
    }
    assert bitmap == Restore(bits);
  }

  method AckDecode(data: seq<byte>, expected: set<nat>, check: bool)
    returns (r: Result<Ack, Error>)
    ensures r == Decode(data, expected, check)
  {
    if |data| < 2 { return Err(TooShort); }
    if |data| > 10 || !ValidRule(data[0]) { return Err(AckMalformed); }
    var window := data[1] / 128;
    if data[1] / 64 % 2 == 1 {
      if |data| != 2 || data[1] % 64 != 0 { return Err(AckMalformed); }
      return Ok(Ack(data[0], window, true, {}));
    }
    var bitmap, padded := ReadBitmap(data);
    if padded { return Err(AckMalformed); }
    var a := Ack(data[0], window, false, bitmap);
    var canonical := new byte[10];
    var length := AckEncode(a, canonical);
    if length.Err? || length.value != |data| || canonical[..length.value] != data {
      return Err(AckNoncanonical);
    }
    if check && !(bitmap <= expected * MASK) { return Err(AckUnassigned); }
    return Ok(a);
  }
}

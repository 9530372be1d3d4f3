/** SCHC fragments and control messages on the wire: schc_fragment_encode,
    schc_fragment_decode and schc_control_encode. Section 8.3 of RFC 8724 puts
    a one-bit window and a six-bit FCN after the rule ID, so the payload is
    shifted by one bit against the byte grid. */
module FragmentCodec {
  import opened Bits

  const TILE: nat := 179  // bytes in a regular tile
  const WINDOW: nat := 63  // tiles in a window
  const ALL_1: nat := 63  // the FCN of the last fragment

  const RULE_A_TO_B: byte := 0x78
  const RULE_B_TO_A: byte := 0x79

  datatype Error =
    | TooShort | InvalidArgument | BufferTooSmall | Done
    | FragmentLength | FragmentPadding | FragmentFcn
    | AckMalformed | AckNoncanonical | AckUnassigned

  predicate ValidRule(rule: byte) {
    rule == RULE_A_TO_B || rule == RULE_B_TO_A
  }

  datatype Fragment = Fragment(rule: byte, window: nat, fcn: nat, rcs: seq<byte>, tile: seq<byte>)

  const NO_RCS: seq<byte> := [0, 0, 0, 0]

  /** What schc_fragment_encode accepts. */
  predicate ValidFragment(f: Fragment) {
    && ValidRule(f.rule) && f.window <= 1 && f.fcn <= ALL_1 && |f.rcs| == 4
    && (if f.fcn == ALL_1 then 1 <= |f.tile| <= TILE
        else |f.tile| == TILE && !(f.window == 1 && f.fcn == 0) && f.rcs == NO_RCS)
  }

  /** The RCS, on an All-1 fragment, and the tile. */
  function Content(f: Fragment): (x: seq<byte>) {
    (if f.fcn == ALL_1 then f.rcs else []) + f.tile
  }

  // ------------------------------------------------- the one-bit shift

  /** Seven header bits, then x, then one zero bit, regrouped into bytes. */
  function Shift(head: nat, x: seq<byte>): (out: seq<byte>)
    requires head < 128
    ensures |out| == |x| + 1
    ensures out[|x|] % 2 == 0
    ensures out[0] / 2 == head
    decreases |x|
  {
    if x == [] then [2 * head]
    else [2 * head + x[0] / 128] + Shift(x[0] % 128, x[1..])
  }

  function Unshift(data: seq<byte>): (x: seq<byte>)
    requires |data| >= 1
    ensures |x| == |data| - 1
  {
    if |data| == 1 then []
    else [data[0] % 2 * 128 + data[1] / 2] + Unshift(data[1..])
  }

  lemma {:induction false} UnshiftShift(head: nat, x: seq<byte>)
    requires head < 128
    ensures Unshift(Shift(head, x)) == x
    decreases |x|
  {
    if x != [] {
      UnshiftShift(x[0] % 128, x[1..]);
      assert Shift(head, x)[1..] == Shift(x[0] % 128, x[1..]);
    }
  }

  lemma {:induction false} ShiftUnshift(data: seq<byte>)
    requires |data| >= 1 && data[|data| - 1] % 2 == 0
    ensures Shift(data[0] / 2, Unshift(data)) == data
  {
    if |data| > 1 {
      ShiftUnshift(data[1..]);
      var x, rest := Unshift(data), Unshift(data[1..]);
      assert x[1..] == rest;
      ShiftFirst(data[0] / 2, x);
      Halves(data[0], data[1]);
      hide Shift, Unshift;
      assert data == [data[0]] + data[1..];
    }
  }

  lemma {:induction false} ShiftAppend(head: nat, x: seq<byte>, y: byte)
    requires head < 128
    ensures Shift(head, x + [y]) ==
            Shift(head, x)[..|x|] + [Shift(head, x)[|x|] + y / 128, 2 * (y % 128)]
    decreases |x|
  {
    if x == [] {
      assert x + [y] == [y];
    } else {
      ShiftAppend(x[0] % 128, x[1..], y);
      assert (x + [y])[1..] == x[1..] + [y];
      var first, rest := 2 * head + x[0] / 128, Shift(x[0] % 128, x[1..]);
      ShiftFirst(head, x);
      ShiftFirst(head, x + [y]);
      hide Shift;
      TakeBehind(first, rest, |x|);
    }
  }

  lemma Halves(a: byte, b: byte)
    ensures var x := a % 2 * 128 + b / 2;
            x / 128 == a % 2 && x % 128 == b / 2 && 2 * (a / 2) + x / 128 == a
  {
  }

  lemma ShiftFirst(head: nat, x: seq<byte>)
    requires head < 128 && x != []
    ensures Shift(head, x) == [2 * head + x[0] / 128] + Shift(x[0] % 128, x[1..])
  {
  }

  lemma TakeBehind(first: byte, rest: seq<byte>, n: nat)
    requires 0 < n <= |rest|
    ensures ([first] + rest)[..n] == [first] + rest[..n - 1]
  {
  }

  lemma {:induction false} UnshiftAt(data: seq<byte>, i: nat)
    requires |data| >= 1 && i < |data| - 1
    ensures Unshift(data)[i] == data[i] % 2 * 128 + data[i + 1] / 2
  {
    if i > 0 {
      UnshiftAt(data[1..], i - 1);
    }
  }

  /** The shifted bytes hold the header bits, the content bits, one zero. */
  lemma {:induction false} ShiftBits(head: nat, x: seq<byte>)
    requires head < 128
    ensures ByteBits(Shift(head, x)) == LowBits(head, 7) + ByteBits(x) + [false]
    decreases |x|
  {
    hide LowBits;
    var out := Shift(head, x);
    LowBitsStep(out[0], 8);
    if x == [] {
      assert out[1..] == [];
    } else {
      ShiftBits(x[0] % 128, x[1..]);
      assert out[1..] == Shift(x[0] % 128, x[1..]);
      SplitTop(x[0]);
      var top, low, rest := [x[0] / 128 == 1], LowBits(x[0] % 128, 7), ByteBits(x[1..]);
      assert (LowBits(head, 7) + top) + (low + rest + [false]) ==
             LowBits(head, 7) + ((top + low) + rest) + [false];
    }
  }

  lemma SplitTop(b: byte)
    ensures Octet(b) == [b / 128 == 1] + LowBits(b % 128, 7)
  {
    Pow2Small();
    LowBitsJoin(b / 128, b % 128, 1, 7);
    assert LowBits(b / 128, 1) == [b / 128 == 1] by {
      assert Shr(b / 128, 0) == b / 128;
    }
  }

  // ------------------------------------------------------------ fragments

  function Encode(f: Fragment): (wire: seq<byte>)
    requires ValidFragment(f)
    ensures |wire| == |Content(f)| + 2
  {
    [f.rule] + Shift(f.window * 64 + f.fcn, Content(f))
  }

  /** The layout of section 8.3.1 of RFC 8724: rule ID, W, FCN, RCS, tile, padding. */
  lemma EncodeLayout(f: Fragment)
    requires ValidFragment(f)
    ensures ByteBits(Encode(f)) ==
            Octet(f.rule) + [f.window == 1] + LowBits(f.fcn, 6) + ByteBits(Content(f)) + [false]
  {
    var head := f.window * 64 + f.fcn;
    ShiftBits(head, Content(f));
    HeaderBits(f.window, f.fcn);
    assert Encode(f)[1..] == Shift(head, Content(f));
    var x := ByteBits(Content(f));
    assert Octet(f.rule) + (([f.window == 1] + LowBits(f.fcn, 6)) + x + [false]) ==
           Octet(f.rule) + [f.window == 1] + LowBits(f.fcn, 6) + x + [false];
  }

  lemma HeaderBits(window: nat, fcn: nat)
    requires window <= 1 && fcn <= ALL_1
    ensures LowBits(window * 64 + fcn, 7) == [window == 1] + LowBits(fcn, 6)
  {
    Pow2Small();
    LowBitsJoin(window, fcn, 1, 6);
    assert LowBits(window, 1) == [window == 1] by {
      assert Shr(window, 0) == window;
    }
  }

  /** schc_fragment_decode into a tile buffer of the given capacity. */
  function Decode(data: seq<byte>, capacity: nat): (r: Result<Fragment, Error>) {
    if |data| < 2 then Err(TooShort)
    else if !ValidRule(data[0]) then Err(InvalidArgument)
    else if data[|data| - 1] % 2 != 0 then Err(FragmentPadding)
    else
      var fcn := data[1] / 2 % 64;
      var window := data[1] / 128;
      var content := |data| - 2;
      if fcn == ALL_1 then
        if content < 5 || content > 4 + TILE then Err(FragmentLength)
        else if capacity < content - 4 then Err(BufferTooSmall)
        else
          var x := Unshift(data[1..]);
          Ok(Fragment(data[0], window, fcn, x[..4], x[4..]))
      else if |data| != TILE + 2 then Err(FragmentLength)
      else if window == 1 && fcn == 0 then Err(FragmentFcn)
      else if capacity < TILE then Err(BufferTooSmall)
      else Ok(Fragment(data[0], window, fcn, NO_RCS, Unshift(data[1..])))
  }

  lemma DecodeEncode(f: Fragment, capacity: nat)
    requires ValidFragment(f) && |f.tile| <= capacity
    ensures Decode(Encode(f), capacity) == Ok(f)
  {
    EncodeParts(f);
    hide Encode, Shift, Unshift;
    var x := Content(f);
    if f.fcn == ALL_1 {
      assert x[..4] == f.rcs && x[4..] == f.tile;
    } else {
      assert x == f.tile;
    }
  }

  lemma EncodeParts(f: Fragment)
    requires ValidFragment(f)
    ensures var wire := Encode(f);
            && |wire| == |Content(f)| + 2 && wire[0] == f.rule && wire[|wire| - 1] % 2 == 0
            && wire[1] / 128 == f.window && wire[1] / 2 % 64 == f.fcn && Unshift(wire[1..]) == Content(f)
  {
    var head := f.window * 64 + f.fcn;
    var x, wire := Content(f), Encode(f);
    UnshiftShift(head, x);
    assert wire[1..] == Shift(head, x);
    assert wire[|wire| - 1] == Shift(head, x)[|x|];
    SplitHead(wire[1], f.window, f.fcn);
  }

  lemma SplitHead(b: byte, window: nat, fcn: nat)
    requires window <= 1 && fcn <= ALL_1 && b / 2 == window * 64 + fcn
    ensures b / 128 == window && b / 2 % 64 == fcn
  {
  }

  /** Whatever decodes is exactly the encoding of the decoded fragment. */
  lemma EncodeDecode(data: seq<byte>, capacity: nat)
    requires Decode(data, capacity).Ok?
    ensures ValidFragment(Decode(data, capacity).value)
    ensures |Decode(data, capacity).value.tile| <= capacity
    ensures Encode(Decode(data, capacity).value) == data
  {
    hide Unshift, Shift;
    var f := Decode(data, capacity).value;
    var x := Unshift(data[1..]);
    assert Content(f) == x by {
      if f.fcn == ALL_1 {
        assert x[..4] + x[4..] == x;
      }
    }
    ShiftUnshift(data[1..]);
    assert data[1..][0] == data[1];
    assert f.window * 64 + f.fcn == data[1] / 2;
    assert data == [data[0]] + data[1..];
  }

  lemma EncodeInjective(f: Fragment, g: Fragment)
    requires ValidFragment(f) && ValidFragment(g) && Encode(f) == Encode(g)
    ensures f == g
  {
    DecodeEncode(f, TILE);
    DecodeEncode(g, TILE);
  }

  // ------------------------------------------------------------- control

  datatype Control = AckRequest | SenderAbort | ReceiverAbort

  function ControlWire(c: Control, rule: byte, window: nat): (wire: seq<byte>)
    requires window <= 1
    ensures |wire| == if c.ReceiverAbort? then 3 else 2
  {
    match c
    case AckRequest => [rule, window * 128]
    case SenderAbort => [rule, 0xfe]
    case ReceiverAbort => [rule, 0xff, 0xff]
  }

  /** Control messages and fragments never collide on the wire. */
  lemma ControlIsNotFragment(c: Control, rule: byte, window: nat, f: Fragment, capacity: nat)
    requires window <= 1
    ensures Decode(ControlWire(c, rule, window), capacity).Err?
    ensures ValidFragment(f) ==> Encode(f) != ControlWire(c, rule, window)
  {
    if ValidFragment(f) {
      DecodeEncode(f, TILE);
      assert Decode(ControlWire(c, rule, window), TILE).Err?;
    }
  }

  lemma ControlInjective(c: Control, d: Control, rule: byte, window: nat, rule': byte, window': nat)
    requires window <= 1 && window' <= 1
    requires ControlWire(c, rule, window) == ControlWire(d, rule', window')
    ensures c == d && rule == rule'
    ensures c.AckRequest? ==> window == window'
  {
    assert ControlWire(c, rule, window)[0] == rule && ControlWire(d, rule', window')[0] == rule';
    assert ControlWire(c, rule, window)[1] == ControlWire(d, rule', window')[1];
  }

  // ------------------------------------------------------ imperative code

  /** One payload loop of schc_fragment_encode: src goes in behind the `index`
      content bytes already placed, starting with bit 7 in the low bit of the
      byte before. */
  method ShiftInto(out: array<byte>, head: nat, ghost done: seq<byte>, index: nat, src: seq<byte>)
    requires head < 128 && index == |done|
    requires 2 + index + |src| <= out.Length
    requires Holds(out[..], Shift(head, done))
    modifies out
    ensures out[0] == old(out[0])
    ensures Holds(out[..], Shift(head, done + src))
    ensures forall k :: 2 + index + |src| <= k < out.Length ==> out[k] == old(out[k])
  {
    assert done + src[..0] == done;
    for i := 0 to |src|
      invariant out[0] == old(out[0])
      invariant Holds(out[..], Shift(head, done + src[..i]))
      invariant forall k :: 2 + index + i <= k < out.Length ==> out[k] == old(out[k])
    {
      ghost var x := done + src[..i];
      assert x + [src[i]] == done + src[..i + 1];
      HoldsNext(out[..], head, x, src[i]);
      out[1 + index + i] := OrLowBit(out[1 + index + i], src[i] / 128);
      out[2 + index + i] := (src[i] as int) * 2 % 256;
    }
    assert src[..|src|] == src;
  }

  /** The bytes of s from index 1 on start with t. */
  ghost predicate Holds(s: seq<byte>, t: seq<byte>) {
    1 + |t| <= |s| && forall k :: 0 <= k < |t| ==> s[1 + k] == t[k]
  }

  lemma HoldsNext(s: seq<byte>, head: nat, x: seq<byte>, y: byte)
    requires head < 128 && 3 + |x| <= |s|
    requires Holds(s, Shift(head, x))
    ensures s[1 + |x|] % 2 == 0
    ensures Holds(s[1 + |x| := OrLowBit(s[1 + |x|], y / 128)][2 + |x| := 2 * (y % 128)],
                  Shift(head, x + [y]))
  {
    ShiftAppend(head, x, y);
  }

  /** b | v for a one-bit v. */
  function OrLowBit(b: byte, v: nat): (r: byte)
    requires v <= 1
    ensures b % 2 == 0 ==> r == b + v
  {
    if b % 2 == 0 then b + v else b
  }

  /** The argument tests of schc_fragment_encode, in its order. */
  method Encodable(f: Fragment) returns (ok: bool)
    requires |f.rcs| == 4
    ensures ok == ValidFragment(f)
  {
    if !ValidRule(f.rule) || f.window > 1 || f.fcn > ALL_1 {
      return false;
    }
    var all1 := f.fcn == ALL_1;
    if (all1 && (|f.tile| == 0 || |f.tile| > TILE)) || (!all1 && |f.tile| != TILE) ||
       (!all1 && f.window == 1 && f.fcn == 0) ||
       (!all1 && (f.rcs[0] != 0 || f.rcs[1] != 0 || f.rcs[2] != 0 || f.rcs[3] != 0)) {
      return false;
    }
    assert !all1 ==> f.rcs == NO_RCS;
    return true;
  }

  method FragmentEncode(f: Fragment, out: array<byte>) returns (r: Result<nat, Error>)
    requires |f.rcs| == 4
    modifies out
    ensures r == if !ValidFragment(f) then Err(InvalidArgument)
                 else if out.Length < |Encode(f)| then Err(BufferTooSmall)
                 else Ok(|Encode(f)|)
    ensures r.Ok? ==> out[..r.value] == Encode(f) && out[r.value..] == old(out[r.value..])
    ensures r.Err? ==> out[..] == old(out[..])
  {
    var ok := Encodable(f);
    if !ok {
      return Err(InvalidArgument);
    }
    var all1 := f.fcn == ALL_1;
    var needed := |f.tile| + (if all1 then 4 else 0) + 2;
    if out.Length < needed {
      return Err(BufferTooSmall);
    }
    WriteFragment(f, out);
    assert out[..needed] == Encode(f);
    return Ok(needed);
  }

  method WriteFragment(f: Fragment, out: array<byte>)
    requires ValidFragment(f) && |Encode(f)| <= out.Length
    modifies out
    ensures forall k :: 0 <= k < |Encode(f)| ==> out[k] == Encode(f)[k]
    ensures forall k :: |Encode(f)| <= k < out.Length ==> out[k] == old(out[k])
  {
    var head := f.window * 64 + f.fcn;
    forall i | 0 <= i < |f.tile| + (if f.fcn == ALL_1 then 4 else 0) + 2 {
      out[i] := 0;
    }
    out[0] := f.rule;
    out[1] := f.window * 128 + f.fcn * 2;
    assert Holds(out[..], Shift(head, []));
    if f.fcn == ALL_1 {
      ShiftInto(out, head, [], 0, f.rcs);
      assert [] + f.rcs == f.rcs;
      ShiftInto(out, head, f.rcs, 4, f.tile);
    } else {
      ShiftInto(out, head, [], 0, f.tile);
      assert [] + f.tile == f.tile;
    }
    assert Holds(out[..], Shift(head, Content(f)));
  }

  method FragmentDecode(data: seq<byte>, tile: array<byte>) returns (r: Result<Fragment, Error>)
    modifies tile
    ensures r == Decode(data, tile.Length)
    ensures r.Ok? ==> |r.value.tile| <= tile.Length && tile[..|r.value.tile|] == r.value.tile
    ensures r.Err? ==> tile[..] == old(tile[..])
  {
    if |data| < 2 { return Err(TooShort); }
    if !ValidRule(data[0]) { return Err(InvalidArgument); }
    if data[|data| - 1] % 2 != 0 { return Err(FragmentPadding); }
    var fcn := data[1] / 2 % 64;
    var window := data[1] / 128;
    var all1 := fcn == ALL_1;
    var content := |data| - 2;
    var length;
    if all1 {
      if content < 5 || content > 4 + TILE { return Err(FragmentLength); }
      length := content - 4;
    } else {
      if |data| != TILE + 2 { return Err(FragmentLength); }
      if window == 1 && fcn == 0 { return Err(FragmentFcn); }
      length := TILE;
    }
    if tile.Length < length { return Err(BufferTooSmall); }
    hide Unshift;
    var rcs: seq<byte> := NO_RCS;
    if all1 {
      rcs := ReadRcs(data);
    }
    ReadTile(data, if all1 then 4 else 0, length, tile);
    return Ok(Fragment(data[0], window, fcn, rcs, tile[..length]));
  }

  method ReadRcs(data: seq<byte>) returns (rcs: seq<byte>)
    requires |data| >= 6
    ensures rcs == Unshift(data[1..])[..4]
  {
    rcs := [];
    for i := 0 to 4
      invariant rcs == Unshift(data[1..])[..i]
    {
      UnshiftAt(data[1..], i);
      rcs := rcs + [data[1 + i] % 2 * 128 + data[2 + i] / 2];
    }
  }

  method ReadTile(data: seq<byte>, skip: nat, length: nat, tile: array<byte>)
    requires |data| == skip + length + 2 && length <= tile.Length
    modifies tile
    ensures tile[..length] == Unshift(data[1..])[skip..]
  {
    ghost var x := Unshift(data[1..]);
    for i := 0 to length
      invariant forall j :: 0 <= j < i ==> tile[j] == x[skip + j]
    {
      UnshiftAt(data[1..], skip + i);
      tile[i] := data[1 + skip + i] % 2 * 128 + data[2 + skip + i] / 2;
    }
  }

  method ControlEncode(c: Control, rule: byte, window: nat, out: array<byte>)
    returns (r: Result<nat, Error>)
    modifies out
    ensures r == if !ValidRule(rule) || window > 1 then Err(InvalidArgument)
                 else if out.Length < |ControlWire(c, rule, window)| then Err(BufferTooSmall)
                 else Ok(|ControlWire(c, rule, window)|)
    ensures r.Ok? ==> out[..r.value] == ControlWire(c, rule, window)
    ensures r.Ok? ==> out[r.value..] == old(out[r.value..])
    ensures r.Err? ==> out[..] == old(out[..])
  {
    if !ValidRule(rule) || window > 1 { return Err(InvalidArgument); }
    var needed := if c.ReceiverAbort? then 3 else 2;
    if out.Length < needed { return Err(BufferTooSmall); }
    out[0] := rule;
    match c {
      case AckRequest =>
        out[1] := window * 128;
      case SenderAbort =>
        out[1] := 0xfe;
      case ReceiverAbort =>
        out[1] := 0xff;
        out[2] := 0xff;
    }
    return Ok(needed);
  }
}

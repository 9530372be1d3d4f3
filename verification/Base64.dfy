/** base64.b64encode and base64.b64decode, the latter with the leniency of the
    CPython decoder: bytes outside the alphabet are skipped, and a complete
    padding ends the text. */
module Base64 {
  import opened Bits

  const PAD: byte := 61
  const NEWLINE: byte := 10

  function Letter(v: nat): (c: byte)
    requires v < 64
    ensures c != PAD && c != NEWLINE
    ensures Value(c) == v
  {
    if v < 26 then 65 + v
    else if v < 52 then 97 + v - 26
    else if v < 62 then 48 + v - 52
    else if v == 62 then 43 else 47
  }

  /** The six bits of a letter; 64 for a byte outside the alphabet. */
  function Value(c: byte): (v: nat)
    ensures v <= 64
  {
    if 65 <= c < 91 then c - 65
    else if 97 <= c < 123 then c - 97 + 26
    else if 48 <= c < 58 then c - 48 + 52
    else if c == 43 then 62
    else if c == 47 then 63 else 64
  }

  function Group(a: byte, b: byte, c: byte): (t: seq<byte>)
    ensures |t| == 4 && NEWLINE !in t && PAD !in t
  {
    [Letter(a / 4), Letter(a % 4 * 16 + b / 16), Letter(b % 16 * 4 + c / 64), Letter(c % 64)]
  }

  function Encode(data: seq<byte>): (text: seq<byte>)
    ensures |text| == (|data| + 2) / 3 * 4 && NEWLINE !in text
    decreases |data|
  {
    if |data| == 0 then []
    else if |data| == 1 then Group(data[0], 0, 0)[..2] + [PAD, PAD]
    else if |data| == 2 then Group(data[0], data[1], 0)[..3] + [PAD]
    else Group(data[0], data[1], data[2]) + Encode(data[3..])
  }

  function Emit(b: byte, r: Result<seq<byte>, ()>): (t: Result<seq<byte>, ()>) {
    if r.Err? then r else Ok([b] + r.value)
  }

  /** `left` holds the bits not yet given out after `quad` letters of a group. */
  predicate Partial(quad: nat, left: nat) {
    match quad
    case 0 => left == 0
    case 1 => left < 64
    case 2 => left < 16
    case _ => quad == 3 && left < 4
  }

  function Feed(text: seq<byte>, quad: nat, left: nat, pads: nat): (r: Result<seq<byte>, ()>)
    requires Partial(quad, left)
    decreases |text|
  {
    if text == [] then if quad == 0 then Ok([]) else Err(())
    else
      var v, rest := Value(text[0]), text[1..];
      if text[0] == PAD then
        if quad >= 2 && quad + pads + 1 >= 4 then Ok([])
        else Feed(rest, quad, left, if quad >= 2 then pads + 1 else pads)
      else if v == 64 then Feed(rest, quad, left, pads)
      else
        match quad
        case 0 => Feed(rest, 1, v, 0)
        case 1 => Emit(left * 4 + v / 16, Feed(rest, 2, v % 16, 0))
        case 2 => Emit(left * 16 + v / 4, Feed(rest, 3, v % 4, 0))
        case _ => Emit(left * 64 + v, Feed(rest, 0, 0, 0))
  }

  function Decode(text: seq<byte>): (r: Result<seq<byte>, ()>) {
    Feed(text, 0, 0, 0)
  }

  /** The bytes that matter to the decoder. */
  function Kept(text: seq<byte>): (t: seq<byte>) {
    if text == [] then []
    else (if text[0] == PAD || Value(text[0]) < 64 then [text[0]] else []) + Kept(text[1..])
  }

  lemma {:induction false} FeedKept(text: seq<byte>, quad: nat, left: nat, pads: nat)
    requires Partial(quad, left)
    ensures Feed(Kept(text), quad, left, pads) == Feed(text, quad, left, pads)
    decreases |text|
  {
    hide Emit, Value;
    if text != [] {
      var v, rest := Value(text[0]), text[1..];
      if text[0] == PAD {
        FeedKept(rest, quad, left, if quad >= 2 then pads + 1 else pads);
        assert Kept(text)[1..] == Kept(rest);
      } else if v == 64 {
        FeedKept(rest, quad, left, pads);
        assert Kept(text) == Kept(rest);
      } else {
        assert Kept(text)[1..] == Kept(rest);
        match quad
        case 0 => FeedKept(rest, 1, v, 0);
        case 1 => FeedKept(rest, 2, v % 16, 0);
        case 2 => FeedKept(rest, 3, v % 4, 0);
        case _ => FeedKept(rest, 0, 0, 0);
      }
    }
  }

  /** Stray bytes, such as a carriage return, change nothing. */
  lemma StraysSkipped(text: seq<byte>)
    ensures Decode(Kept(text)) == Decode(text)
  {
    FeedKept(text, 0, 0, 0);
  }

  lemma FeedLetter(v: nat, rest: seq<byte>, quad: nat, left: nat)
    requires v < 64 && Partial(quad, left)
    ensures Feed([Letter(v)] + rest, quad, left, 0) ==
            match quad
            case 0 => Feed(rest, 1, v, 0)
            case 1 => Emit(left * 4 + v / 16, Feed(rest, 2, v % 16, 0))
            case 2 => Emit(left * 16 + v / 4, Feed(rest, 3, v % 4, 0))
            case _ => Emit(left * 64 + v, Feed(rest, 0, 0, 0))
  {
    hide Letter, Value, Emit;
    assert ([Letter(v)] + rest)[1..] == rest;
  }

  lemma FeedTwo(a: byte, v: nat, rest: seq<byte>)
    requires v < 64 && v / 16 == a % 4
    ensures Feed([Letter(a / 4)] + ([Letter(v)] + rest), 0, 0, 0) == Emit(a, Feed(rest, 2, v % 16, 0))
  {
    hide Letter, Value, Emit, Feed;
    FeedLetter(a / 4, [Letter(v)] + rest, 0, 0);
    FeedLetter(v, rest, 1, a / 4);
  }

  lemma FeedThree(a: byte, b: byte, v: nat, rest: seq<byte>)
    requires v < 64 && v / 4 == b % 16
    ensures Feed([Letter(a / 4)] + ([Letter(a % 4 * 16 + b / 16)] + ([Letter(v)] + rest)), 0, 0, 0) ==
            Emit(a, Emit(b, Feed(rest, 3, v % 4, 0)))
  {
    hide Letter, Value, Emit, Feed;
    var u := a % 4 * 16 + b / 16;
    assert u / 16 == a % 4 && u % 16 == b / 16;
    FeedTwo(a, u, [Letter(v)] + rest);
    FeedLetter(v, rest, 2, b / 16);
  }

  lemma FeedGroup(a: byte, b: byte, c: byte, rest: seq<byte>)
    ensures Feed(Group(a, b, c) + rest, 0, 0, 0) == Emit(a, Emit(b, Emit(c, Feed(rest, 0, 0, 0))))
  {
    hide Letter, Value, Emit, Feed;
    var v := b % 16 * 4 + c / 64;
    assert v / 4 == b % 16 && v % 4 == c / 64;
    FeedThree(a, b, v, [Letter(c % 64)] + rest);
    FeedLetter(c % 64, rest, 3, c / 64);
    assert Group(a, b, c) + rest ==
           [Letter(a / 4)] + ([Letter(a % 4 * 16 + b / 16)] + ([Letter(v)] + ([Letter(c % 64)] + rest)));
  }

  lemma Padded()
    ensures Feed([PAD, PAD], 2, 0, 0) == Ok([]) && Feed([PAD], 3, 0, 0) == Ok([])
  {
    assert [PAD, PAD][1..] == [PAD];
  }

  lemma {:induction false} DecodeEncode(data: seq<byte>)
    ensures Decode(Encode(data)) == Ok(data)
    decreases |data|
  {
    hide Letter, Value, Feed;
    if |data| == 0 {
      FeedNothing();
    } else if |data| == 1 {
      var a := data[0];
      FeedTwo(a, a % 4 * 16, [PAD, PAD]);
      Padded();
      assert Encode(data) == [Letter(a / 4)] + ([Letter(a % 4 * 16)] + [PAD, PAD]);
      assert data == [a] + [];
    } else if |data| == 2 {
      var a, b := data[0], data[1];
      FeedThree(a, b, b % 16 * 4, [PAD]);
      Padded();
      assert Encode(data) == [Letter(a / 4)] + ([Letter(a % 4 * 16 + b / 16)] + ([Letter(b % 16 * 4)] + [PAD]));
      assert data == [a] + ([b] + []);
    } else {
      FeedGroup(data[0], data[1], data[2], Encode(data[3..]));
      DecodeEncode(data[3..]);
      assert data == [data[0]] + ([data[1]] + ([data[2]] + data[3..]));
    }
  }

  lemma FeedNothing()
    ensures Feed([], 0, 0, 0) == Ok([])
  {
  }
}

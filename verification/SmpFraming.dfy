/** The mcumgr serial framing of smp-flash.py: _encode_frames and _read_frame. */
module SmpFraming {
  import opened Bits
  import Base64
  import Crc16

  const SOF: seq<byte> := [0x06, 0x09]
  const SOF_CONT: seq<byte> := [0x04, 0x14]
  const FRAME_RAW_MAX: nat := 93

  datatype Error = Timeout | BadSof | BadBase64 | TooShort | LengthMismatch | BadCrc

  function Be16(v: nat): (s: seq<byte>)
    requires v < 65536
    ensures |s| == 2
  {
    [v / 256, v % 256]
  }

  /** The SMP header in front of the payload. */
  function Packet(op: byte, group: nat, seqNo: nat, command: byte, payload: seq<byte>): (raw: seq<byte>)
    requires group < 65536 && |payload| < 65536
    ensures |raw| == 8 + |payload|
  {
    [op, 0] + Be16(|payload|) + Be16(group) + [seqNo % 256, command] + payload
  }

  /** Length, packet and CRC. */
  function Inner(raw: seq<byte>): (inner: seq<byte>)
    requires |raw| + 2 < 65536
    ensures |inner| == |raw| + 4
  {
    Be16(|raw| + 2) + raw + Crc16.Bytes(Crc16.Crc(Zeros(16), raw))
  }

  function Line(sof: seq<byte>, chunk: seq<byte>): (line: seq<byte>) {
    sof + Base64.Encode(chunk) + [Base64.NEWLINE]
  }

  /** The lines for inner[from..]; the one at offset 0 starts the packet. */
  function Lines(inner: seq<byte>, from: nat): (lines: seq<seq<byte>>)
    requires from <= |inner|
    decreases |inner| - from
  {
    if from == |inner| then []
    else
      var end := if from + FRAME_RAW_MAX <= |inner| then from + FRAME_RAW_MAX else |inner|;
      [Line(if from == 0 then SOF else SOF_CONT, inner[from..end])] + Lines(inner, end)
  }

  lemma {:induction false} LinesFit(inner: seq<byte>, from: nat)
    requires from <= |inner|
    ensures forall k :: 0 <= k < |Lines(inner, from)| ==> |Lines(inner, from)[k]| <= 127
    decreases |inner| - from
  {
    if from < |inner| {
      var end := if from + FRAME_RAW_MAX <= |inner| then from + FRAME_RAW_MAX else |inner|;
      LinesFit(inner, end);
    }
  }

  /** _encode_frames */
  method EncodeFrames(op: byte, group: nat, seqNo: nat, command: byte, payload: seq<byte>)
    returns (frames: seq<seq<byte>>)
    requires group < 65536 && |payload| + 10 < 65536
    ensures frames == Lines(Inner(Packet(op, group, seqNo, command, payload)), 0)
    ensures forall k :: 0 <= k < |frames| ==> |frames[k]| <= 127
  {
    hide Line;
    var raw := Packet(op, group, seqNo, command, payload);
    var crc := Crc16.Compute(raw);
    var inner := Be16(|raw| + 2) + raw + Crc16.Bytes(crc);
    assert inner == Inner(raw);
    frames := [];
    var off := 0;
    while off < |inner|
      invariant off <= |inner| && frames + Lines(inner, off) == Lines(inner, 0)
    {
      var end := if off + FRAME_RAW_MAX <= |inner| then off + FRAME_RAW_MAX else |inner|;
      var line := Line(if off == 0 then SOF else SOF_CONT, inner[off..end]);
      assert frames + ([line] + Lines(inner, end)) == (frames + [line]) + Lines(inner, end);
      frames := frames + [line];
      off := end;
    }
    assert frames + [] == frames;
    LinesFit(inner, 0);
  }

  // --------------------------------------------------------------- reading

  /** One line of the stream without its newline, and what follows. */
  function ReadLine(stream: seq<byte>): (r: Result<(seq<byte>, seq<byte>), Error>)
    ensures r.Ok? ==> |r.value.1| < |stream|
  {
    if stream == [] then Err(Timeout)
    else if stream[0] == Base64.NEWLINE then Ok(([], stream[1..]))
    else
      var r := ReadLine(stream[1..]);
      if r.Err? then r else Ok(([stream[0]] + r.value.0, r.value.1))
  }

  /** A line with the given start mark, decoded. */
  function ReadChunk(stream: seq<byte>, sof: seq<byte>): (r: Result<(seq<byte>, seq<byte>), Error>)
    requires |sof| == 2
    ensures r.Ok? ==> |r.value.1| < |stream|
  {
    var l := ReadLine(stream);
    if l.Err? then Err(l.error)
    else if |l.value.0| < 2 || l.value.0[..2] != sof then Err(BadSof)
    else
      var d := Base64.Decode(l.value.0[2..]);
      if d.Err? then Err(BadBase64) else Ok((d.value, l.value.1))
  }

  /** Continuation lines until `want` bytes are there. */
  function ReadMore(have: seq<byte>, want: nat, stream: seq<byte>)
    : (r: Result<(seq<byte>, seq<byte>), Error>)
    decreases |stream|
  {
    if |have| >= want then Ok((have, stream))
    else
      var c := ReadChunk(stream, SOF_CONT);
      if c.Err? then Err(c.error) else ReadMore(have + c.value.0, want, c.value.1)
  }

  /** The packet behind the next lines of the stream, and what follows. */
  function ReadPacket(stream: seq<byte>): (r: Result<(seq<byte>, seq<byte>), Error>) {
    var first := ReadChunk(stream, SOF);
    if first.Err? then Err(first.error)
    else if |first.value.0| < 4 then Err(TooShort)
    else
      var want := first.value.0[0] as int * 256 + first.value.0[1];
      var m := ReadMore(first.value.0[2..], want, first.value.1);
      if m.Err? then Err(m.error)
      else if |m.value.0| != want then Err(LengthMismatch)
      else if Crc16.Crc(Zeros(16), m.value.0) != Zeros(16) then Err(BadCrc)
      else if want < 2 then Ok(([], m.value.1))
      else Ok((m.value.0[..want - 2], m.value.1))
  }

  /** _read_frame on a serial input */
  method ReadFrame(stream: seq<byte>) returns (r: Result<(seq<byte>, seq<byte>), Error>)
    ensures r == ReadPacket(stream)
  {
    var first := ReadChunk(stream, SOF);
    if first.Err? { return Err(first.error); }
    if |first.value.0| < 4 { return Err(TooShort); }
    var want := first.value.0[0] as int * 256 + first.value.0[1];
    var have, rest := first.value.0[2..], first.value.1;
    while |have| < want
      invariant ReadMore(have, want, rest) == ReadMore(first.value.0[2..], want, first.value.1)
      decreases |rest|
    {
      var c := ReadChunk(rest, SOF_CONT);
      if c.Err? { return Err(c.error); }
      have, rest := have + c.value.0, c.value.1;
    }
    if |have| != want { return Err(LengthMismatch); }
    var crc := Crc16.Compute(have);
    if crc != Zeros(16) { return Err(BadCrc); }
    return Ok((if want < 2 then [] else have[..want - 2], rest));
  }

  // ------------------------------------------------------------ round trip

  function Flatten(lines: seq<seq<byte>>): (stream: seq<byte>) {
    if lines == [] then [] else lines[0] + Flatten(lines[1..])
  }

  lemma {:induction false} ReadLineOf(text: seq<byte>, rest: seq<byte>)
    requires Base64.NEWLINE !in text
    ensures ReadLine(text + [Base64.NEWLINE] + rest) == Ok((text, rest))
    decreases |text|
  {
    var s := text + [Base64.NEWLINE] + rest;
    if text == [] {
      assert s[1..] == rest;
    } else {
      ReadLineOf(text[1..], rest);
      assert s[1..] == text[1..] + [Base64.NEWLINE] + rest;
      assert s[0] == text[0];
      assert text == [text[0]] + text[1..];
    }
  }

  lemma ReadChunkOf(sof: seq<byte>, chunk: seq<byte>, rest: seq<byte>)
    requires |sof| == 2 && Base64.NEWLINE !in sof
    ensures ReadChunk(Line(sof, chunk) + rest, sof) == Ok((chunk, rest))
  {
    var text := sof + Base64.Encode(chunk);
    ReadLineOf(text, rest);
    assert Line(sof, chunk) + rest == text + [Base64.NEWLINE] + rest;
    assert text[..2] == sof && text[2..] == Base64.Encode(chunk);
    Base64.DecodeEncode(chunk);
  }

  /** Continuation lines bring back the rest of the packet. */
  lemma {:induction false} ReadMoreOf(inner: seq<byte>, from: nat, have: seq<byte>, rest: seq<byte>)
    requires 0 < from <= |inner|
    ensures ReadMore(have, |have| + |inner| - from, Flatten(Lines(inner, from)) + rest) ==
            Ok((have + inner[from..], rest))
    decreases |inner| - from
  {
    hide ReadChunk, Line;
    var lines := Lines(inner, from);
    if from == |inner| {
      assert Flatten(lines) + rest == rest;
      assert have + inner[from..] == have;
    } else {
      var end := if from + FRAME_RAW_MAX <= |inner| then from + FRAME_RAW_MAX else |inner|;
      var chunk := inner[from..end];
      var more := Flatten(Lines(inner, end)) + rest;
      assert lines[1..] == Lines(inner, end);
      assert Flatten(lines) + rest == Line(SOF_CONT, chunk) + more;
      ReadChunkOf(SOF_CONT, chunk, more);
      ReadMoreOf(inner, end, have + chunk, rest);
      assert chunk + inner[end..] == inner[from..];
      assert (have + chunk) + inner[end..] == have + (chunk + inner[end..]);
    }
  }

  /** Reading the emitted lines gives back header and payload, and leaves
      whatever follows them on the line. */
  lemma FramesReadBack(op: byte, group: nat, seqNo: nat, command: byte, payload: seq<byte>, rest: seq<byte>)
    requires group < 65536 && |payload| + 10 < 65536
    ensures var raw := Packet(op, group, seqNo, command, payload);
            ReadPacket(Flatten(Lines(Inner(raw), 0)) + rest) == Ok((raw, rest))
  {
    hide Crc16.Crc;
    hide Packet;
    hide Lines;
    var raw := Packet(op, group, seqNo, command, payload);
    var crc := Crc16.Bytes(Crc16.Crc(Zeros(16), raw));
    var stream := Flatten(Lines(Inner(raw), 0)) + rest;
    InnerParts(raw);
    var first, more := FirstLine(Inner(raw), rest);
    Crc16.SelfChecking(raw);
    assert (raw + crc)[..|raw|] == raw;
  }

  lemma InnerParts(raw: seq<byte>)
    requires |raw| + 2 < 65536
    ensures Inner(raw)[0] as int * 256 + Inner(raw)[1] == |raw| + 2
    ensures Inner(raw)[2..] == raw + Crc16.Bytes(Crc16.Crc(Zeros(16), raw))
  {
    hide Crc16.Crc;
    hide Crc16.Bytes;
    var head, tail := Be16(|raw| + 2), Crc16.Bytes(Crc16.Crc(Zeros(16), raw));
    assert Inner(raw) == head + (raw + tail);
    assert (head + (raw + tail))[2..] == raw + tail;
    Be16Value(|raw| + 2);
  }

  lemma Be16Value(v: nat)
    requires v < 65536
    ensures Be16(v)[0] as int * 256 + Be16(v)[1] == v
  {
  }

  /** The first line and then the others bring back everything. */
  lemma FirstLine(inner: seq<byte>, rest: seq<byte>) returns (first: seq<byte>, more: seq<byte>)
    requires |inner| >= 4
    ensures ReadChunk(Flatten(Lines(inner, 0)) + rest, SOF) == Ok((first, more))
    ensures |first| >= 4 && first[..2] == inner[..2]
    ensures ReadMore(first[2..], |inner| - 2, more) == Ok((inner[2..], rest))
  {
    var end := if FRAME_RAW_MAX <= |inner| then FRAME_RAW_MAX else |inner|;
    first := inner[0..end];
    var lines := Lines(inner, 0);
    more := Flatten(Lines(inner, end)) + rest;
    assert lines[1..] == Lines(inner, end);
    assert Flatten(lines) + rest == Line(SOF, first) + more;
    ReadChunkOf(SOF, first, more);
    ReadMoreOf(inner, end, first[2..], rest);
    assert first[2..] + inner[end..] == inner[2..];
  }
}

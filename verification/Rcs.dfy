/** The reassembly check sequence: crc32_iso_hdlc, packet_rcs and write_be32.
    A 32-bit register is its bit string, most significant bit first. */
module Rcs {
  import opened Bits

  type Word = w: seq<bool> | |w| == 32 witness seq(32, _ => false)

  function Xor(a: Word, b: Word): (r: Word)
    ensures forall i :: 0 <= i < 32 ==> r[i] == (a[i] != b[i])
  {
    seq(32, i requires 0 <= i < 32 => a[i] != b[i])
  }

  function And(a: Word, b: Word): (r: Word)
    ensures forall i :: 0 <= i < 32 ==> r[i] == (a[i] && b[i])
  {
    seq(32, i requires 0 <= i < 32 => a[i] && b[i])
  }

  function Not(a: Word): (r: Word)
    ensures forall i :: 0 <= i < 32 ==> r[i] == !a[i]
  {
    seq(32, i requires 0 <= i < 32 => !a[i])
  }

  function Fill(b: bool): (r: Word)
    ensures forall i :: 0 <= i < 32 ==> r[i] == b
  {
    seq(32, _ => b)
  }

  const POLYNOMIAL: Word := LowBits(0xedb88320, 32)

  function HalfWord(a: Word): (r: Word) {
    [false] + a[..31]
  }

  function Step(crc: Word): (r: Word) {
    if crc[31] then Xor(HalfWord(crc), POLYNOMIAL) else HalfWord(crc)
  }

  function Steps(crc: Word, n: nat): (r: Word)
    decreases n, crc
  {
    if n == 0 then crc else Step(Steps(crc, n - 1))
  }

  function FromByte(b: byte): (r: Word) {
    seq(24, _ => false) + Octet(b)
  }

  function Update(crc: Word, data: seq<byte>): (r: Word) {
    if data == [] then crc
    else
      var last := |data| - 1;
      Steps(Xor(Update(crc, data[..last]), FromByte(data[last])), 8)
  }

  /** CRC-32/ISO-HDLC. */
  function Crc32(data: seq<byte>): (r: Word) {
    Not(Update(Fill(true), data))
  }

  /** The four RCS bytes of a packet: eight more steps than its CRC-32. */
  function Check(packet: seq<byte>): (s: seq<byte>)
    ensures |s| == 4
  {
    Pack(Not(Steps(Not(Crc32(packet)), 8)))
  }

  /** Section 8.2.3 of RFC 8724: the RCS covers the packet and its padding;
      here that is the CRC-32 of the packet and one zero byte. */
  lemma CheckIsPaddedCrc(packet: seq<byte>)
    ensures ByteBits(Check(packet)) == Crc32(packet + [0])
  {
    var padded: seq<byte> := packet + [0];
    assert padded[..|padded| - 1] == packet;
    var crc := Update(Fill(true), packet);
    assert Not(Not(crc)) == crc;
    assert Xor(crc, FromByte(0)) == crc by {
      forall k | 0 <= k < 8
        ensures !Octet(0)[k]
      {
        ShrIsDivision(0, 7 - k);
      }
    }
  }

  method EightSteps(start: Word) returns (crc: Word)
    ensures crc == Steps(start, 8)
  {
    crc := start;
    for bit := 0 to 8
      invariant crc == Steps(start, bit)
    {
      var mask := Fill(crc[31]);
      MaskSelects(crc);
      crc := Xor(HalfWord(crc), And(POLYNOMIAL, mask));
    }
  }

  lemma MaskSelects(crc: Word)
    ensures Xor(HalfWord(crc), And(POLYNOMIAL, Fill(crc[31]))) == Step(crc)
  {
  }

  method ComputeCrc32(data: seq<byte>) returns (r: Word)
    ensures r == Crc32(data)
  {
    var crc := Fill(true);
    for i := 0 to |data|
      invariant crc == Update(Fill(true), data[..i])
    {
      assert data[..i + 1][..i] == data[..i];
      crc := EightSteps(Xor(crc, FromByte(data[i])));
    }
    assert data[..|data|] == data;
    r := Not(crc);
  }

  method ComputeRcs(packet: seq<byte>) returns (rcs: seq<byte>)
    ensures rcs == Check(packet)
  {
    var crc := ComputeCrc32(packet);
    crc := EightSteps(Not(crc));
    rcs := Pack(Not(crc));
  }
}

/** _crc16 of smp-flash.py: CRC-CCITT, polynomial 0x1021, initial value 0. A
    register is its bit string, most significant bit first. */
module Crc16 {
  import opened Bits

  type Reg = r: seq<bool> | |r| == 16 witness seq(16, _ => false)

  function Xor(a: Reg, b: Reg): (r: Reg)
    ensures forall i :: 0 <= i < 16 ==> r[i] == (a[i] != b[i])
  {
    seq(16, i requires 0 <= i < 16 => a[i] != b[i])
  }

  const POLYNOMIAL: Reg := LowBits(0x1021, 16)

  /** One shift of the 16-bit register. */
  function Step(r: Reg): (t: Reg) {
    var shifted := r[1..] + [false];
    if r[0] then Xor(shifted, POLYNOMIAL) else shifted
  }

  function Steps(r: Reg, n: nat): (t: Reg)
    decreases n, r
  {
    if n == 0 then r else Step(Steps(r, n - 1))
  }

  function Update(r: Reg, b: byte): (t: Reg) {
    Steps(Xor(r, Octet(b) + Zeros(8)), 8)
  }

  function Crc(r: Reg, data: seq<byte>): (t: Reg)
    decreases |data|
  {
    if data == [] then r else Crc(Update(r, data[0]), data[1..])
  }

  /** The big-endian bytes of a register. */
  function Bytes(r: Reg): (s: seq<byte>)
    ensures |s| == 2 && ByteBits(s) == r
  {
    Pack(r)
  }

  lemma {:induction false} CrcConcat(r: Reg, a: seq<byte>, b: seq<byte>)
    ensures Crc(r, a + b) == Crc(Crc(r, a), b)
    decreases |a|
  {
    if a == [] {
      assert a + b == b;
    } else {
      CrcConcat(Update(r, a[0]), a[1..], b);
      assert (a + b)[1..] == a[1..] + b;
    }
  }

  /** While the top bits are zero the register only shifts. */
  lemma {:induction false} StepsShift(r: Reg, n: nat)
    requires n <= 16 && forall i :: 0 <= i < n ==> !r[i]
    ensures Steps(r, n) == r[n..] + Zeros(n)
    decreases n
  {
    if n == 0 {
      assert r[0..] + Zeros(0) == r;
    } else {
      StepsShift(r, n - 1);
      var s := Steps(r, n - 1);
      assert s[0] == r[n - 1];
      assert s[1..] + [false] == r[n..] + Zeros(n);
    }
  }

  /** Feeding the register its own two bytes clears it. */
  lemma OwnBytesClear(r: Reg)
    ensures Crc(r, Bytes(r)) == Zeros(16)
  {
    var b := Bytes(r);
    OwnBits(r);
    var x := Xor(r, Octet(b[0]) + Zeros(8));
    StepsShift(x, 8);
    var s := Update(r, b[0]);
    assert s == r[8..] + Zeros(8);
    var y := Xor(s, Octet(b[1]) + Zeros(8));
    assert y == Zeros(16);
    StepsShift(y, 8);
    assert Update(s, b[1]) == Zeros(16);
    assert b == [b[0]] + [b[1]];
    CrcConcat(r, [b[0]], [b[1]]);
    CrcOne(r, b[0]);
    CrcOne(s, b[1]);
  }

  lemma OwnBits(r: Reg)
    ensures Octet(Bytes(r)[0]) == r[..8] && Octet(Bytes(r)[1]) == r[8..]
  {
    hide Octet;
    var b := Bytes(r);
    assert b[1..][1..] == [];
    assert ByteBits(b) == Octet(b[0]) + (Octet(b[1]) + []);
  }

  /** A message followed by its CRC has CRC zero. */
  lemma SelfChecking(data: seq<byte>)
    ensures Crc(Zeros(16), data + Bytes(Crc(Zeros(16), data))) == Zeros(16)
  {
    var r := Crc(Zeros(16), data);
    CrcConcat(Zeros(16), data, Bytes(r));
    OwnBytesClear(r);
  }

  // ------------------------------------------------------ imperative code

  /** The loop body works on an integer that is masked only once per byte: a
      growing bit string whose low sixteen bits are the register. */
  function Low16(bits: seq<bool>): (r: Reg)
    requires |bits| >= 16
  {
    bits[|bits| - 16..]
  }

  method ShiftEight(start: Reg) returns (crc: seq<bool>)
    ensures |crc| == 24 && Low16(crc) == Steps(start, 8)
  {
    crc := start;
    for i := 0 to 8
      invariant |crc| == 16 + i && Low16(crc) == Steps(start, i)
    {
      var shifted := crc + [false];
      assert Low16(shifted) == Low16(crc)[1..] + [false];
      if crc[|crc| - 16] {
        var low := Xor(Low16(shifted), POLYNOMIAL);
        crc := shifted[..|shifted| - 16] + low;
      } else {
        crc := shifted;
      }
    }
  }

  method Compute(data: seq<byte>) returns (crc: Reg)
    ensures crc == Crc(Zeros(16), data)
  {
    crc := Zeros(16);
    for i := 0 to |data|
      invariant crc == Crc(Zeros(16), data[..i])
    {
      assert data[..i + 1] == data[..i] + [data[i]];
      CrcConcat(Zeros(16), data[..i], [data[i]]);
      CrcOne(crc, data[i]);
      var wide := ShiftEight(Xor(crc, Octet(data[i]) + Zeros(8)));
      crc := Low16(wide);
    }
    assert data[..|data|] == data;
  }

  lemma CrcOne(r: Reg, b: byte)
    ensures Crc(r, [b]) == Update(r, b)
  {
    assert [b][1..] == [];
  }
}

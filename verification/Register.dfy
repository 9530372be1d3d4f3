/** The CRC register as a machine: every step can be undone, steps distribute
    over exclusive or, and four bytes lead from any register to any other. */
module Register {
  import opened Bits
  import opened Rcs

  lemma {:induction false} UpdateConcat(r: Word, a: seq<byte>, b: seq<byte>)
    ensures Update(r, a + b) == Update(Update(r, a), b)
    decreases |b|
  {
    hide Steps, Xor, FromByte;
    if b == [] {
      assert a + b == a;
    } else {
      var last := |b| - 1;
      UpdateConcat(r, a, b[..last]);
      assert (a + b)[..|a + b| - 1] == a + b[..last];
    }
  }

  // ---------------------------------------------------------- backwards

  lemma ShrByte(v: nat, n: nat)
    ensures Shr(v, 8 + n) == Shr(v / 256, n)
  {
    ShrShr(v, 8, n);
    ShrIsDivision(v, 8);
    Pow2Small();
  }

  lemma TopBit()
    ensures POLYNOMIAL[0]
  {
    ShrByte(0xedb88320, 23);
    ShrByte(0xedb883, 15);
    ShrByte(0xedb8, 7);
    ShrIsDivision(0xed, 7);
    Pow2Small();
  }

  /** The register before a step. */
  function Back(r: Word): (a: Word) {
    (if r[0] then Xor(r, POLYNOMIAL) else r)[1..] + [r[0]]
  }

  lemma StepBack(r: Word)
    ensures Step(Back(r)) == r
  {
    TopBit();
    var x := if r[0] then Xor(r, POLYNOMIAL) else r;
    assert HalfWord(Back(r)) == x;
  }

  lemma BackStep(a: Word)
    ensures Back(Step(a)) == a
  {
    TopBit();
    var r := Step(a);
    assert r[0] == a[31];
    var x := if r[0] then Xor(r, POLYNOMIAL) else r;
    assert x == HalfWord(a);
  }

  function Backs(r: Word, n: nat): (a: Word)
    decreases n, r
  {
    if n == 0 then r else Backs(Back(r), n - 1)
  }

  lemma {:induction false} StepsBacks(r: Word, n: nat)
    ensures Steps(Backs(r, n), n) == r
    decreases n
  {
    hide Step, Back;
    if n > 0 {
      StepsBacks(Back(r), n - 1);
      StepBack(r);
    }
  }

  lemma {:induction false} StepsInjective(a: Word, b: Word, n: nat)
    requires Steps(a, n) == Steps(b, n)
    ensures a == b
    decreases n
  {
    hide Step;
    if n > 0 {
      BackStep(Steps(a, n - 1));
      BackStep(Steps(b, n - 1));
      StepsInjective(a, b, n - 1);
    }
  }

  lemma XorInjective(a: Word, b: Word, y: Word)
    requires Xor(a, y) == Xor(b, y)
    ensures a == b
  {
    forall i | 0 <= i < 32
      ensures a[i] == b[i]
    {
      assert Xor(a, y)[i] == Xor(b, y)[i];
    }
  }

  lemma {:induction false} UpdateInjective(a: Word, b: Word, data: seq<byte>)
    requires Update(a, data) == Update(b, data)
    ensures a == b
    decreases |data|
  {
    hide Steps, Xor, FromByte;
    if data != [] {
      var front, y := data[..|data| - 1], FromByte(data[|data| - 1]);
      StepsInjective(Xor(Update(a, front), y), Xor(Update(b, front), y), 8);
      XorInjective(Update(a, front), Update(b, front), y);
      UpdateInjective(a, b, front);
    }
  }

  /** Two packets have the same RCS exactly when they leave the same register. */
  lemma CheckExactly(p: seq<byte>, q: seq<byte>)
    ensures Check(p) == Check(q) <==> Update(Fill(true), p) == Update(Fill(true), q)
  {
    hide Update, Steps;
    var a, b := Update(Fill(true), p), Update(Fill(true), q);
    NotTwice(a);
    NotTwice(b);
    if Check(p) == Check(q) {
      assert Not(Steps(a, 8)) == Not(Steps(b, 8));
      NotTwice(Steps(a, 8));
      NotTwice(Steps(b, 8));
      StepsInjective(a, b, 8);
    }
  }

  lemma NotTwice(a: Word)
    ensures Not(Not(a)) == a
  {
  }

  // ---------------------------------------------------------- linearity

  lemma StepXor(a: Word, b: Word)
    ensures Step(Xor(a, b)) == Xor(Step(a), Step(b))
  {
    assert HalfWord(Xor(a, b)) == Xor(HalfWord(a), HalfWord(b));
  }

  lemma {:induction false} StepsXor(a: Word, b: Word, n: nat)
    ensures Steps(Xor(a, b), n) == Xor(Steps(a, n), Steps(b, n))
    decreases n
  {
    hide Step, Xor;
    if n > 0 {
      StepsXor(a, b, n - 1);
      StepXor(Steps(a, n - 1), Steps(b, n - 1));
    }
  }

  /** While the low bits are zero the register only shifts. */
  lemma {:induction false} StepsShift(r: Word, n: nat)
    requires n <= 32 && forall i :: 32 - n <= i < 32 ==> !r[i]
    ensures Steps(r, n) == Zeros(n) + r[..32 - n]
    decreases n
  {
    if n == 0 {
      assert Zeros(0) + r[..32] == r;
    } else {
      StepsShift(r, n - 1);
      var s := Steps(r, n - 1);
      assert s[31] == r[32 - n];
      assert [false] + s[..31] == Zeros(n) + r[..32 - n];
    }
  }

  /** A byte that agrees with the low end of y, fed to r, leaves the rest of y
      to be fed. */
  lemma OneByte(r: Word, u: Word, y: Word, b: byte)
    requires Xor(r, y) == u && Octet(b) == y[24..]
    ensures Xor(Update(r, [b]), Zeros(8) + y[..24]) == Steps(u, 8)
  {
    hide Octet;
    var high: Word := y[..24] + Zeros(8);
    assert Xor(Xor(r, FromByte(b)), high) == u;
    assert [b][..0] == [];
    assert Update(r, []) == r;
    hide Steps, Xor;
    StepsXor(Xor(r, FromByte(b)), high, 8);
    StepsShift(high, 8);
    assert high[..24] == y[..24];
  }

  /** Thirty-two steps. */
  function Word32(u: Word): (r: Word) {
    Steps(Steps(Steps(Steps(u, 8), 8), 8), 8)
  }

  /** Four bytes, low end first, amount to one exclusive or and 32 steps. */
  lemma FeedWord(r: Word, y: Word, b: seq<byte>)
    requires |b| == 4 && Octet(b[0]) == y[24..] && Octet(b[1]) == y[16..24]
    requires Octet(b[2]) == y[8..16] && Octet(b[3]) == y[..8]
    ensures Update(r, b) == Word32(Xor(r, y))
  {
    hide Steps, Xor, Update, Octet;
    var u := Xor(r, y);
    OneByte(r, u, y, b[0]);
    var r1, y1, u1 := Update(r, [b[0]]), Zeros(8) + y[..24], Steps(u, 8);
    assert y1[24..] == y[16..24] && y1[..24] == Zeros(8) + y[..16];
    OneByte(r1, u1, y1, b[1]);
    var r2, y2, u2 := Update(r1, [b[1]]), Zeros(8) + y1[..24], Steps(u1, 8);
    assert y2[24..] == y[8..16] && y2[..24] == Zeros(16) + y[..8];
    OneByte(r2, u2, y2, b[2]);
    var r3, y3, u3 := Update(r2, [b[2]]), Zeros(8) + y2[..24], Steps(u2, 8);
    assert y3[24..] == y[..8] && y3[..24] == Zeros(24);
    OneByte(r3, u3, y3, b[3]);
    assert Zeros(8) + y3[..24] == Fill(false);
    XorNothing(Update(r3, [b[3]]));
    UpdatePairs(r, b[0], b[1], b[2], b[3]);
    assert b == [b[0], b[1]] + [b[2], b[3]];
  }

  /** Four bytes lead from any register to any other. */
  lemma FourBytes(from: Word, to: Word) returns (bytes: seq<byte>)
    ensures |bytes| == 4 && Update(from, bytes) == to
  {
    hide Steps, Xor, Update, Backs, Octet;
    StepsBacks(to, 8);
    StepsBacks(Backs(to, 8), 8);
    StepsBacks(Backs(Backs(to, 8), 8), 8);
    StepsBacks(Backs(Backs(Backs(to, 8), 8), 8), 8);
    var u := Backs(Backs(Backs(Backs(to, 8), 8), 8), 8);
    var b := Octets(Xor(from, u));
    bytes := [b[3], b[2], b[1], b[0]];
    FeedWord(from, Xor(from, u), bytes);
    XorTwice(from, u);
  }

  /** Only one choice of four bytes does. */
  lemma FourBytesUnique(r: Word, a: seq<byte>, b: seq<byte>)
    requires |a| == |b| == 4 && Update(r, a) == Update(r, b)
    ensures a == b
  {
    hide Steps, Xor, Update, Octet;
    var x: Word := Octet(a[3]) + Octet(a[2]) + Octet(a[1]) + Octet(a[0]);
    var y: Word := Octet(b[3]) + Octet(b[2]) + Octet(b[1]) + Octet(b[0]);
    FeedWord(r, x, a);
    FeedWord(r, y, b);
    var u, v := Xor(r, x), Xor(r, y);
    StepsInjective(Steps(Steps(Steps(u, 8), 8), 8), Steps(Steps(Steps(v, 8), 8), 8), 8);
    StepsInjective(Steps(Steps(u, 8), 8), Steps(Steps(v, 8), 8), 8);
    StepsInjective(Steps(u, 8), Steps(v, 8), 8);
    StepsInjective(u, v, 8);
    XorTwice(r, x);
    XorTwice(r, y);
    assert x == y;
    OctetsAgree(a, x);
    OctetsAgree(b, y);
    forall k | 0 <= k < 4
      ensures a[k] == b[k]
    {
      OctetValue(a[k]);
      OctetValue(b[k]);
    }
  }

  lemma OctetsAgree(a: seq<byte>, x: Word)
    requires |a| == 4 && x == Octet(a[3]) + Octet(a[2]) + Octet(a[1]) + Octet(a[0])
    ensures forall k :: 0 <= k < 4 ==> Octet(a[k]) == x[24 - 8 * k..32 - 8 * k]
  {
    hide Octet;
  }

  /** The RCS tells apart any two packets that differ in at most four
      consecutive bytes. */
  lemma BurstDetected(front: seq<byte>, a: seq<byte>, b: seq<byte>, back: seq<byte>)
    requires |a| == |b| == 4
    ensures Check(front + a + back) == Check(front + b + back) <==> a == b
  {
    hide Update, Check;
    var ones := Fill(true);
    CheckExactly(front + a + back, front + b + back);
    UpdateConcat(ones, front + a, back);
    UpdateConcat(ones, front + b, back);
    UpdateConcat(ones, front, a);
    UpdateConcat(ones, front, b);
    if Check(front + a + back) == Check(front + b + back) {
      UpdateInjective(Update(ones, front + a), Update(ones, front + b), back);
      FourBytesUnique(Update(ones, front), a, b);
    }
  }

  lemma XorTwice(a: Word, u: Word)
    ensures Xor(a, Xor(a, u)) == u
  {
  }

  lemma XorNothing(a: Word)
    ensures Xor(a, Fill(false)) == a
  {
  }

  lemma UpdatePairs(r: Word, a: byte, b: byte, c: byte, d: byte)
    ensures Update(r, [a, b] + [c, d]) == Update(Update(Update(Update(r, [a]), [b]), [c]), [d])
  {
    hide Update;
    UpdateConcat(r, [a, b], [c, d]);
    assert [a, b] == [a] + [b] && [c, d] == [c] + [d];
    UpdateConcat(r, [a], [b]);
    UpdateConcat(Update(r, [a, b]), [c], [d]);
  }

  /** The four bytes of a register, most significant first. */
  lemma Octets(y: Word) returns (b: seq<byte>)
    ensures |b| == 4 && Octet(b[0]) == y[..8] && Octet(b[1]) == y[8..16]
    ensures Octet(b[2]) == y[16..24] && Octet(b[3]) == y[24..]
  {
    hide Octet, Pack;
    b := Pack(y);
    assert b[1..][1..] == b[2..] && b[2..][1..] == b[3..] && b[3..][1..] == [];
    assert ByteBits(b[3..]) == Octet(b[3]) + ByteBits([]);
    assert ByteBits(b[2..]) == Octet(b[2]) + ByteBits(b[3..]);
    assert ByteBits(b[1..]) == Octet(b[1]) + ByteBits(b[2..]);
  }
}

/** Bytes as numbers and as bit strings, most significant bit first. */
module Bits {

  type byte = b: int | 0 <= b < 256

  datatype Result<+T, +E> = Ok(value: T) | Err(error: E)

  function Pow2(k: nat): (p: nat)
    ensures p >= 1
  {
    if k == 0 then 1 else 2 * Pow2(k - 1)
  }

  /** v shifted right by k bits. */
  function Shr(v: nat, k: nat): (r: nat)
    decreases k, v
  {
    if k == 0 then v else Shr(v / 2, k - 1)
  }

  lemma {:induction false} ShrShr(v: nat, a: nat, b: nat)
    ensures Shr(Shr(v, a), b) == Shr(v, a + b)
    decreases a
  {
    if a != 0 {
      ShrShr(v / 2, a - 1, b);
    }
  }

  /** The n low bits of v, most significant first. */
  function LowBits(v: nat, n: nat): (s: seq<bool>)
    ensures |s| == n
  {
    seq(n, i requires 0 <= i < n => Shr(v, n - 1 - i) % 2 == 1)
  }

  lemma LowBitsStep(v: nat, n: nat)
    requires n > 0
    ensures LowBits(v, n) == LowBits(v / 2, n - 1) + [v % 2 == 1]
  {
    var s := LowBits(v / 2, n - 1) + [v % 2 == 1];
    forall i | 0 <= i < n
      ensures LowBits(v, n)[i] == s[i]
    {
      if i < n - 1 {
        assert Shr(v, n - 1 - i) == Shr(v / 2, n - 2 - i);
      } else {
        assert Shr(v, 0) == v;
      }
    }
  }

  /** Splitting a bit field: high part, then low part. */
  lemma LowBitsSplit(v: nat, a: nat, b: nat)
    ensures LowBits(v, a + b) == LowBits(Shr(v, b), a) + LowBits(v, b)
  {
    var s := LowBits(Shr(v, b), a) + LowBits(v, b);
    forall i | 0 <= i < a + b
      ensures LowBits(v, a + b)[i] == s[i]
    {
      if i < a {
        ShrShr(v, b, a - 1 - i);
      }
    }
  }

  function ToNat(s: seq<bool>): (v: nat)
    ensures v < Pow2(|s|)
  {
    if s == [] then 0
    else 2 * ToNat(s[..|s| - 1]) + (if s[|s| - 1] then 1 else 0)
  }

  function Zeros(n: nat): (s: seq<bool>)
    ensures |s| == n
  {
    seq(n, _ => false)
  }

  lemma {:induction false} ToNatLowBits(v: nat, n: nat)
    ensures ToNat(LowBits(v, n)) == v % Pow2(n)
    decreases n
  {
    if n != 0 {
      LowBitsStep(v, n);
      assert LowBits(v, n)[..n - 1] == LowBits(v / 2, n - 1);
      ToNatLowBits(v / 2, n - 1);
      ModDouble(v, Pow2(n - 1));
    }
  }

  lemma ModDouble(v: nat, m: nat)
    requires m >= 1
    ensures v % (2 * m) == 2 * ((v / 2) % m) + v % 2
  {
    var q, r := (v / 2) / m, (v / 2) % m;
    assert v == q * (2 * m) + (2 * r + v % 2) by {
      assert v / 2 == q * m + r;
      assert q * (2 * m) == 2 * (q * m);
    }
    RemainderIs(v, 2 * m, q, 2 * r + v % 2);
  }

  lemma RemainderIs(v: int, m: int, q: int, r: int)
    requires m > 0 && 0 <= r < m && v == q * m + r
    ensures v % m == r && v / m == q
  {
    var q', r' := v / m, v % m;
    assert v == q' * m + r';
    assert (q - q') * m == r' - r by {
      assert (q - q') * m == q * m - q' * m;
    }
    MulAtLeast(q - q', m);
  }

  lemma MulAtLeast(k: int, m: int)
    requires m > 0
    ensures k >= 1 ==> k * m >= m
    ensures k <= -1 ==> k * m <= -m
  {
  }

  lemma {:induction false} LowBitsToNat(s: seq<bool>)
    ensures LowBits(ToNat(s), |s|) == s
  {
    if s != [] {
      LowBitsToNat(s[..|s| - 1]);
      LowBitsStep(ToNat(s), |s|);
      assert s == s[..|s| - 1] + [s[|s| - 1]];
    }
  }

  /** Only the value modulo 2^n matters. */
  lemma LowBitsMod(v: nat, n: nat)
    ensures LowBits(v % Pow2(n), n) == LowBits(v, n)
  {
    ToNatLowBits(v, n);
    LowBitsToNat(LowBits(v, n));
  }

  /** A field hi * 2^n + lo is the field hi followed by the n bits of lo. */
  lemma LowBitsJoin(hi: nat, lo: nat, m: nat, n: nat)
    requires lo < Pow2(n)
    ensures LowBits(hi * Pow2(n) + lo, m + n) == LowBits(hi, m) + LowBits(lo, n)
  {
    var v := hi * Pow2(n) + lo;
    LowBitsSplit(v, m, n);
    ShrIsDivision(v, n);
    RemainderIs(v, Pow2(n), hi, lo);
    LowBitsMod(v, n);
  }

  lemma {:induction false} ShrIsDivision(v: nat, k: nat)
    ensures Shr(v, k) == v / Pow2(k)
    decreases k
  {
    if k != 0 {
      ShrIsDivision(v / 2, k - 1);
      var p := Pow2(k - 1);
      var q, r := (v / 2) / p, (v / 2) % p;
      assert v == q * (2 * p) + (2 * r + v % 2) by {
        assert v / 2 == q * p + r;
        assert q * (2 * p) == 2 * (q * p);
      }
      RemainderIs(v, 2 * p, q, 2 * r + v % 2);
    }
  }

  // ---------------------------------------------------------------- bytes

  function Octet(b: byte): (s: seq<bool>)
    ensures |s| == 8
  {
    LowBits(b, 8)
  }

  lemma Pow2Small()
    ensures Pow2(0) == 1 && Pow2(1) == 2 && Pow2(2) == 4 && Pow2(3) == 8 && Pow2(4) == 16
    ensures Pow2(5) == 32 && Pow2(6) == 64 && Pow2(7) == 128 && Pow2(8) == 256
  {
    assert Pow2(4) == 16;
  }

  lemma OctetValue(b: byte)
    ensures ToNat(Octet(b)) == b
  {
    ToNatLowBits(b, 8);
    Pow2Small();
  }

  function ByteBits(bytes: seq<byte>): (s: seq<bool>)
    ensures |s| == 8 * |bytes|
  {
    if bytes == [] then [] else Octet(bytes[0]) + ByteBits(bytes[1..])
  }

  lemma {:induction false} ByteBitsConcat(a: seq<byte>, b: seq<byte>)
    ensures ByteBits(a + b) == ByteBits(a) + ByteBits(b)
  {
    if a == [] {
      assert a + b == b;
    } else {
      ByteBitsConcat(a[1..], b);
      assert (a + b)[1..] == a[1..] + b;
      var h, x, y := Octet(a[0]), ByteBits(a[1..]), ByteBits(b);
      assert h + (x + y) == (h + x) + y;
    }
  }

  lemma {:induction false} ByteBitsAt(bytes: seq<byte>, i: nat)
    requires i < 8 * |bytes|
    ensures ByteBits(bytes)[i] == Octet(bytes[i / 8])[i % 8]
  {
    if i >= 8 {
      ByteBitsAt(bytes[1..], i - 8);
    }
  }

  /** Byte strings are determined by their bits. */
  lemma {:induction false} ByteBitsInjective(a: seq<byte>, b: seq<byte>)
    requires ByteBits(a) == ByteBits(b)
    ensures a == b
  {
    assert |a| == |b|;
    if a != [] {
      assert Octet(a[0]) == ByteBits(a)[..8] && Octet(b[0]) == ByteBits(b)[..8];
      OctetValue(a[0]);
      OctetValue(b[0]);
      assert ByteBits(a)[8..] == ByteBits(a[1..]) && ByteBits(b)[8..] == ByteBits(b[1..]);
      ByteBitsInjective(a[1..], b[1..]);
    }
  }

  /** The byte string with the given bits. */
  function Pack(bits: seq<bool>): (bytes: seq<byte>)
    requires |bits| % 8 == 0
    ensures |bytes| == |bits| / 8
    ensures ByteBits(bytes) == bits
  {
    if bits == [] then []
    else
      Pow2Small();
      LowBitsToNat(bits[..8]);
      assert bits == bits[..8] + bits[8..];
      [ToNat(bits[..8])] + Pack(bits[8..])
  }
}

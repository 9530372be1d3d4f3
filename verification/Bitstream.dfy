/** The bit writer and reader: fast aligned, byte and tail code that agrees
    with appending and consuming bits one at a time. */
module Bitstream {
  import opened Bits

  /** The buffer holds these bits first and zeros behind them. */
  ghost predicate Holds(bytes: seq<byte>, bits: seq<bool>) {
    |bits| <= 8 * |bytes| && ByteBits(bytes) == bits + Zeros(8 * |bytes| - |bits|)
  }

  lemma {:induction false} ByteBitsUpdate(bytes: seq<byte>, i: nat, b: byte)
    requires i < |bytes|
    ensures ByteBits(bytes[i := b]) ==
            ByteBits(bytes)[..8 * i] + Octet(b) + ByteBits(bytes)[8 * i + 8..]
  {
    var t := bytes[i := b];
    var r := ByteBits(bytes)[..8 * i] + Octet(b) + ByteBits(bytes)[8 * i + 8..];
    forall k | 0 <= k < 8 * |bytes|
      ensures ByteBits(t)[k] == r[k]
    {
      ByteBitsAt(bytes, k);
      ByteBitsAt(t, k);
    }
  }

  /** Bitwise or of two bytes. */
  function Or(a: byte, b: byte): (r: byte)
    ensures Octet(r) == seq(8, i requires 0 <= i < 8 => Octet(a)[i] || Octet(b)[i])
  {
    var bits := seq(8, i requires 0 <= i < 8 => Octet(a)[i] || Octet(b)[i]);
    LowBitsToNat(bits);
    Pow2Small();
    ToNat(bits)
  }

  lemma {:induction false} ZeroBits(n: nat)
    ensures LowBits(0, n) == Zeros(n)
  {
    forall i | 0 <= i < n
      ensures !LowBits(0, n)[i]
    {
      ShrIsDivision(0, n - 1 - i);
    }
  }

  /** A k-bit value shifted into place inside a byte. */
  lemma PlacedBits(x: nat, off: nat, k: nat, s: nat)
    requires off + k + s == 8 && x < Pow2(k)
    ensures x * Pow2(s) < 256
    ensures Octet(x * Pow2(s)) == Zeros(off) + LowBits(x, k) + Zeros(s)
  {
    hide LowBits;
    hide Pow2;
    PlacedFits(x, off, k, s);
    LowBitsJoin(x, 0, off + k, s);
    LowBitsJoin(0, x, off, k);
    ZeroBits(s);
    ZeroBits(off);
  }

  lemma PlacedFits(x: nat, off: nat, k: nat, s: nat)
    requires off + k + s == 8 && x < Pow2(k)
    ensures x * Pow2(s) < 256
  {
    Pow2Sum(k, s);
    MulLess(x, Pow2(k), Pow2(s));
    Pow2Bound(k + s);
  }

  lemma MulLess(x: nat, y: nat, p: nat)
    requires x < y && p > 0
    ensures x * p < y * p
  {
  }

  lemma Pow2Bound(n: nat)
    requires n <= 8
    ensures Pow2(n) <= 256
  {
    Pow2Small();
  }

  lemma {:induction false} Pow2Sum(a: nat, b: nat)
    ensures Pow2(a + b) == Pow2(a) * Pow2(b)
  {
    if a > 0 {
      Pow2Sum(a - 1, b);
      assert 2 * (Pow2(a - 1) * Pow2(b)) == (2 * Pow2(a - 1)) * Pow2(b);
    }
  }

  /** Completing the current byte with some bits and zeros appends the bits. */
  lemma ByteAppends(bytes: seq<byte>, bits: seq<bool>, b: byte, more: seq<bool>)
    requires Holds(bytes, bits) && |bits| / 8 < |bytes| && |bits| % 8 + |more| <= 8
    requires Octet(b) == bits[8 * (|bits| / 8)..] + more + Zeros(8 - |bits| % 8 - |more|)
    ensures Holds(bytes[|bits| / 8 := b], bits + more)
  {
    hide Octet;
    var i, z := |bits| / 8, 8 - |bits| % 8 - |more|;
    var n := 8 * |bytes| - 8 * i - 8;
    ByteBitsUpdate(bytes, i, b);
    Surroundings(ByteBits(bytes), bits, 8 * i, n);
    Regroup(bits[..8 * i], bits[8 * i..], more, z, n);
    assert bits == bits[..8 * i] + bits[8 * i..];
  }

  lemma Surroundings(all: seq<bool>, bits: seq<bool>, at: nat, n: nat)
    requires at <= |bits| <= at + 8 && |all| == at + 8 + n && all == bits + Zeros(|all| - |bits|)
    ensures all[..at] == bits[..at] && all[at + 8..] == Zeros(n)
  {
  }

  lemma Regroup(front: seq<bool>, current: seq<bool>, more: seq<bool>, z: nat, n: nat)
    ensures front + (current + more + Zeros(z)) + Zeros(n) == front + current + more + Zeros(z + n)
  {
  }

  /** Or-ing a k-bit value into the free bits of the current byte appends it. */
  lemma OrAppends(bytes: seq<byte>, bits: seq<bool>, x: nat, k: nat, s: nat)
    requires Holds(bytes, bits) && |bits| / 8 < |bytes|
    requires |bits| % 8 + k + s == 8 && x < Pow2(k)
    ensures x * Pow2(s) < 256
    ensures Holds(bytes[|bits| / 8 := Or(bytes[|bits| / 8], x * Pow2(s))], bits + LowBits(x, k))
  {
    hide Octet, LowBits, Zeros, ByteBits;
    var i, off := |bits| / 8, |bits| % 8;
    PlacedBits(x, off, k, s);
    var b := Or(bytes[i], x * Pow2(s));
    CurrentByte(bytes, bits);
    OrBits(bytes[i], x * Pow2(s), bits[8 * i..], LowBits(x, k), s);
    ByteAppends(bytes, bits, b, LowBits(x, k));
  }

  lemma OrBits(a: byte, b: byte, high: seq<bool>, low: seq<bool>, s: nat)
    requires |high| + |low| + s == 8
    requires Octet(a) == high + Zeros(|low| + s)
    requires Octet(b) == Zeros(|high|) + low + Zeros(s)
    ensures Octet(Or(a, b)) == high + low + Zeros(s)
  {
    hide Octet;
  }

  lemma CurrentByte(bytes: seq<byte>, bits: seq<bool>)
    requires Holds(bytes, bits) && |bits| / 8 < |bytes|
    ensures Octet(bytes[|bits| / 8]) == bits[8 * (|bits| / 8)..] + Zeros(8 - |bits| % 8)
  {
    var i := |bits| / 8;
    forall k | 0 <= k < 8
      ensures Octet(bytes[i])[k] == ByteBits(bytes)[8 * i + k]
    {
      ByteBitsAt(bytes, 8 * i + k);
    }
  }

  /** Storing a k-bit value at the top of a fresh byte appends it. */
  lemma SetAppends(bytes: seq<byte>, bits: seq<bool>, x: nat, k: nat, s: nat)
    requires Holds(bytes, bits) && |bits| % 8 == 0 && |bits| / 8 < |bytes|
    requires k + s == 8 && x < Pow2(k)
    ensures x * Pow2(s) < 256
    ensures Holds(bytes[|bits| / 8 := x * Pow2(s)], bits + LowBits(x, k))
  {
    PlacedBits(x, 0, k, s);
    assert bits[8 * (|bits| / 8)..] == [];
    assert Zeros(0) + LowBits(x, k) == LowBits(x, k);
    ByteAppends(bytes, bits, x * Pow2(s), LowBits(x, k));
  }

  /** Dropping d low bits of a field first. */
  lemma TakeHigh(v: nat, n: nat, r: nat, d: nat)
    requires d <= r <= n
    ensures LowBits(Shr(v, r), n - r) + LowBits(Shr(v, r - d), d) == LowBits(Shr(v, r - d), n - r + d)
  {
    LowBitsSplit(Shr(v, r - d), n - r, d);
    ShrShr(v, r - d, d);
  }

  class BitWriter {
    const buf: array<byte>
    var nbits: nat

    ghost predicate Valid()
      reads this, buf
    {
      nbits <= 8 * buf.Length && Holds(buf[..], Contents())
    }

    /** The bits written so far. */
    ghost function Contents(): (bits: seq<bool>)
      reads this, buf
      requires nbits <= 8 * buf.Length
    {
      ByteBits(buf[..])[..nbits]
    }

    /** schc_bit_writer_init clears the buffer it is given. */
    constructor (length: nat)
      ensures Valid() && Contents() == [] && buf.Length == length && fresh(buf)
    {
      buf := new byte[length](_ => 0);
      nbits := 0;
      new;
      ZeroBuffer(buf[..]);
    }

    /** schc_bit_writer_write: appends the low nbits of value, most significant
        first, or changes nothing. */
    method Write(value: nat, n: int) returns (ok: bool)
      requires Valid()
      modifies this, buf
      ensures Valid()
      ensures ok <==> 0 <= n <= 64 && old(nbits) + n <= 8 * buf.Length
      ensures ok ==> Contents() == old(Contents()) + LowBits(value, n)
      ensures !ok ==> nbits == old(nbits) && buf[..] == old(buf[..])
    {
      hide ByteBits, Pow2, LowBits, Shr;
      if n < 0 || n > 64 { return false; }
      var needed := (nbits + n + 7) / 8;
      if needed > buf.Length { return false; }
      ghost var c := Contents();
      var remaining: nat := n;
      if nbits % 8 != 0 {
        remaining := Align(value, n);
      }
      remaining := WholeBytes(value, n, remaining, c);
      if remaining > 0 {
        Tail(value, n, remaining, c);
      }
      NoShift(value);
      ok := true;
    }

    /** Fill up the current byte from the top of the value. */
    method Align(value: nat, n: nat) returns (remaining: nat)
      requires Valid() && nbits % 8 != 0 && nbits + n <= 8 * buf.Length
      modifies this, buf
      ensures remaining <= n && nbits == old(nbits) + n - remaining
      ensures remaining == 0 || nbits % 8 == 0
      ensures Holds(buf[..], old(Contents()) + LowBits(Shr(value, remaining), n - remaining))
    {
      var offset := nbits % 8;
      var k := if 8 - offset > n then n else 8 - offset;
      remaining := n - k;
      Fill(Shr(value, remaining), k);
      nbits := nbits + k;
    }

    /** The low k bits of v behind what is in the current byte. */
    method Fill(v: nat, k: nat)
      requires Valid() && nbits % 8 + k <= 8 && nbits + k <= 8 * buf.Length
      modifies buf
      ensures Holds(buf[..], old(Contents()) + LowBits(v, k))
    {
      hide ByteBits, Pow2;
      ghost var c := Contents();
      if k > 0 {
        var shift := 8 - nbits % 8 - k;
        var partial := v % Pow2(k);
        OrAppends(buf[..], c, partial, k, shift);
        LowBitsMod(v, k);
        buf[nbits / 8] := Or(buf[nbits / 8], partial * Pow2(shift));
      } else {
        assert c + LowBits(v, 0) == c;
      }
    }

    method WholeBytes(value: nat, n: nat, start: nat, ghost c: seq<bool>) returns (remaining: nat)
      requires start <= n && |c| + n <= 8 * buf.Length && nbits == |c| + n - start
      requires start == 0 || nbits % 8 == 0
      requires Holds(buf[..], c + LowBits(Shr(value, start), n - start))
      modifies this, buf
      ensures remaining < 8 && remaining <= n && nbits == |c| + n - remaining
      ensures remaining == 0 || nbits % 8 == 0
      ensures Holds(buf[..], c + LowBits(Shr(value, remaining), n - remaining))
    {
      hide LowBits, ByteBits, Holds, Shr;
      remaining := start;
      while remaining >= 8
        invariant remaining <= start && nbits == |c| + n - remaining
        invariant remaining == 0 || nbits % 8 == 0
        invariant Holds(buf[..], c + LowBits(Shr(value, remaining), n - remaining))
      {
        NextByte(nbits);
        OneByte(value, n, remaining, c);
        remaining := remaining - 8;
      }
    }

    method OneByte(value: nat, n: nat, remaining: nat, ghost c: seq<bool>)
      requires 8 <= remaining <= n && |c| + n <= 8 * buf.Length
      requires nbits == |c| + n - remaining && nbits % 8 == 0
      requires Holds(buf[..], c + LowBits(Shr(value, remaining), n - remaining))
      modifies this`nbits, buf
      ensures nbits == old(nbits) + 8
      ensures Holds(buf[..], c + LowBits(Shr(value, remaining - 8), n - remaining + 8))
    {
      hide LowBits, ByteBits, Holds, Shr;
      WholeByte(buf[..], c, value, n, remaining);
      buf[nbits / 8] := Shr(value, remaining - 8) % 256;
      nbits := nbits + 8;
    }

    method Tail(value: nat, n: nat, remaining: nat, ghost c: seq<bool>)
      requires 0 < remaining < 8 && remaining <= n && |c| + n <= 8 * buf.Length
      requires nbits == |c| + n - remaining && nbits % 8 == 0
      requires Holds(buf[..], c + LowBits(Shr(value, remaining), n - remaining))
      modifies this, buf
      ensures nbits == |c| + n && Holds(buf[..], c + LowBits(value, n))
    {
      TailByte(buf[..], c, value, n, remaining);
      buf[nbits / 8] := value % Pow2(remaining) * Pow2(8 - remaining);
      nbits := nbits + remaining;
    }

    /** schc_bit_writer_write128: appends the leading nbits of a 16-byte value,
        or changes nothing. */
    method Write128(value: seq<byte>, n: int) returns (ok: bool)
      requires Valid() && |value| == 16
      modifies this, buf
      ensures Valid()
      ensures ok <==> 0 <= n <= 128 && old(nbits) + n <= 8 * buf.Length
      ensures ok ==> Contents() == old(Contents()) + ByteBits(value)[..n]
      ensures !ok ==> nbits == old(nbits) && buf[..] == old(buf[..])
    {
      if n < 0 || n > 128 { return false; }
      var needed := (nbits + n + 7) / 8;
      if needed > buf.Length { return false; }
      ghost var c := Contents();
      assert c + ByteBits(value)[..0] == c;
      var done := 0;
      var offset := nbits % 8;
      if offset != 0 {
        done := if 8 - offset > n then n else 8 - offset;
        CopyBits(value, 0, done, c);
      }
      if n - done >= 8 && done % 8 == 0 {
        var full := (n - done) / 8;
        CopyBytes(value, full, c);
        done := done + full * 8;
      }
      CopyBits(value, done, n - done, c);
      ok := true;
    }

    /** One bit at a time: the bits of value from `from` on. */
    method CopyBits(value: seq<byte>, from: nat, count: nat, ghost c: seq<bool>)
      requires from + count <= 8 * |value| && |c| + from + count <= 8 * buf.Length
      requires nbits == |c| + from && Holds(buf[..], c + ByteBits(value)[..from])
      modifies this, buf
      ensures nbits == |c| + from + count && Holds(buf[..], c + ByteBits(value)[..from + count])
    {
      hide ByteBits;
      for i := 0 to count
        invariant nbits == |c| + from + i && Holds(buf[..], c + ByteBits(value)[..from + i])
      {
        var src := from + i;
        var bit := Shr(value[src / 8], 7 - src % 8) % 2;
        BitAppends(buf[..], c, value, src);
        buf[nbits / 8] := Or(buf[nbits / 8], bit * Pow2(7 - nbits % 8));
        nbits := nbits + 1;
      }
    }

    /** memcpy of whole bytes when both sides are aligned. */
    method CopyBytes(value: seq<byte>, full: nat, ghost c: seq<bool>)
      requires full <= |value| && |c| % 8 == 0 && |c| + 8 * full <= 8 * buf.Length
      requires nbits == |c| && Holds(buf[..], c)
      modifies this, buf
      ensures nbits == |c| + 8 * full && Holds(buf[..], c + ByteBits(value)[..8 * full])
    {
      assert c + ByteBits(value[..0]) == c;
      hide ByteBits;
      hide Octet;
      for i := 0 to full
        invariant nbits == |c|
        invariant Holds(buf[..], c + ByteBits(value[..i]))
      {
        ghost var bits := c + ByteBits(value[..i]);
        WholeByteAppends(buf[..], bits, nbits / 8 + i, value[i]);
        ByteBitsNext(value, i);
        assert bits + Octet(value[i]) == c + ByteBits(value[..i + 1]);
        buf[nbits / 8 + i] := value[i];
      }
      nbits := nbits + 8 * full;
      AlignedSlice(value, 0, full);
    }
  }

  lemma BitAppends(bytes: seq<byte>, c: seq<bool>, value: seq<byte>, src: nat)
    requires src < 8 * |value| && |c| + src < 8 * |bytes|
    requires Holds(bytes, c + ByteBits(value)[..src])
    ensures var at := |c| + src;
            var bit := Shr(value[src / 8], 7 - src % 8) % 2;
            && bit * Pow2(7 - at % 8) < 256
            && Holds(bytes[at / 8 := Or(bytes[at / 8], bit * Pow2(7 - at % 8))],
                     c + ByteBits(value)[..src + 1])
  {
    var bits := c + ByteBits(value)[..src];
    var bit := Shr(value[src / 8], 7 - src % 8) % 2;
    Pow2Small();
    OrAppends(bytes, bits, bit, 1, 7 - |bits| % 8);
    BitOfByte(value, src);
    assert Shr(bit, 0) == bit;
    assert LowBits(bit, 1) == [bit == 1];
    assert bits + [ByteBits(value)[src]] == c + ByteBits(value)[..src + 1];
  }

  lemma ByteBitsNext(value: seq<byte>, i: nat)
    requires i < |value|
    ensures ByteBits(value[..i + 1]) == ByteBits(value[..i]) + Octet(value[i])
  {
    hide Octet;
    assert value[..i + 1] == value[..i] + [value[i]];
    ByteBitsConcat(value[..i], [value[i]]);
    assert [value[i]][1..] == [];
  }

  lemma WholeByteAppends(bytes: seq<byte>, bits: seq<bool>, n: nat, b: byte)
    requires Holds(bytes, bits) && |bits| == 8 * n && n < |bytes|
    ensures Holds(bytes[n := b], bits + Octet(b))
  {
    hide Octet;
    hide Holds;
    Times8(n);
    assert bits[8 * n..] == [];
    assert Octet(b) == [] + Octet(b) + Zeros(0);
    ByteAppends(bytes, bits, b, Octet(b));
  }

  lemma Times8(n: nat)
    ensures 8 * n % 8 == 0 && 8 * n / 8 == n
  {
  }

  lemma BitOfByte(bytes: seq<byte>, i: nat)
    requires i < 8 * |bytes|
    ensures ByteBits(bytes)[i] == (Shr(bytes[i / 8], 7 - i % 8) % 2 == 1)
  {
    ByteBitsAt(bytes, i);
  }

  lemma ZeroBuffer(bytes: seq<byte>)
    requires forall i :: 0 <= i < |bytes| ==> bytes[i] == 0
    ensures Holds(bytes, [])
  {
    forall k | 0 <= k < 8 * |bytes|
      ensures !ByteBits(bytes)[k]
    {
      ByteBitsAt(bytes, k);
      ZeroBits(8);
    }
  }

  lemma WholeByte(bytes: seq<byte>, c: seq<bool>, value: nat, n: nat, r: nat)
    requires 8 <= r <= n && |c| + n <= 8 * |bytes| && (|c| + n - r) % 8 == 0
    requires Holds(bytes, c + LowBits(Shr(value, r), n - r))
    ensures Holds(bytes[(|c| + n - r) / 8 := Shr(value, r - 8) % 256],
                  c + LowBits(Shr(value, r - 8), n - r + 8))
  {
    hide Holds, LowBits, Shr;
    var high, x := LowBits(Shr(value, r), n - r), Shr(value, r - 8);
    assert Pow2(8) == 256 && Pow2(0) == 1;
    SetAppends(bytes, c + high, x % 256, 8, 0);
    LowBitsMod(x, 8);
    TakeHigh(value, n, r, 8);
    assert (c + high) + LowBits(x, 8) == c + (high + LowBits(x, 8));
  }

  lemma TailByte(bytes: seq<byte>, c: seq<bool>, value: nat, n: nat, r: nat)
    requires 0 < r < 8 && r <= n && |c| + n <= 8 * |bytes| && (|c| + n - r) % 8 == 0
    requires Holds(bytes, c + LowBits(Shr(value, r), n - r))
    ensures value % Pow2(r) * Pow2(8 - r) < 256
    ensures Holds(bytes[(|c| + n - r) / 8 := value % Pow2(r) * Pow2(8 - r)], c + LowBits(value, n))
  {
    var bits := c + LowBits(Shr(value, r), n - r);
    SetAppends(bytes, bits, value % Pow2(r), r, 8 - r);
    LowBitsMod(value, r);
    TakeHigh(value, n, r, r);
    assert Shr(value, 0) == value;
    assert bits + LowBits(value, r) == c + LowBits(value, n);
  }

  // ---------------------------------------------------------------- reader

  class BitReader {
    const buf: seq<byte>
    var pos: nat

    ghost predicate Valid()
      reads this
    {
      pos <= 8 * |buf|
    }

    constructor (buf: seq<byte>)
      ensures Valid() && this.buf == buf && pos == 0
    {
      this.buf := buf;
      pos := 0;
    }

    /** schc_bit_reader_read: the number written in the next nbits. */
    method Read(n: int) returns (r: Result<nat, ()>)
      requires Valid()
      modifies this
      ensures Valid()
      ensures r.Ok? <==> 0 <= n <= 64 && old(pos) + n <= 8 * |buf|
      ensures r.Ok? ==> pos == old(pos) + n && r.value == ToNat(ByteBits(buf)[old(pos)..pos])
      ensures r.Err? ==> pos == old(pos)
    {
      hide ByteBits, ToNat;
      if n < 0 || n > 64 || pos + n > |buf| * 8 { return Err(()); }
      ghost var start := pos;
      assert ByteBits(buf)[start..pos] == [] && ToNat([]) == 0 by {
        NoBits();
      }
      var value: nat := 0;
      var remaining: nat := n;
      var offset := pos % 8;
      if offset != 0 {
        var k := if 8 - offset > remaining then remaining else 8 - offset;
        value := ReadBits(value, k, start);
        remaining := remaining - k;
      }
      while remaining >= 8
        invariant start <= pos && pos + remaining == start + n
        invariant remaining == 0 || pos % 8 == 0
        invariant value == ToNat(ByteBits(buf)[start..pos])
      {
        NextByte(pos);
        value := ReadByte(value, start);
        remaining := remaining - 8;
      }
      value := ReadBits(value, remaining, start);
      return Ok(value);
    }

    method ReadByte(value: nat, ghost start: nat) returns (r: nat)
      requires start <= pos && pos + 8 <= 8 * |buf| && pos % 8 == 0
      requires value == ToNat(ByteBits(buf)[start..pos])
      modifies this
      ensures pos == old(pos) + 8 && r == ToNat(ByteBits(buf)[start..pos])
    {
      hide ByteBits, ToNat;
      AppendByte(buf, start, pos / 8);
      assert 8 * (pos / 8) == pos;
      r := value * 256 + buf[pos / 8];
      pos := pos + 8;
    }

    method ReadBits(value: nat, count: nat, ghost start: nat) returns (r: nat)
      requires start <= pos && pos + count <= 8 * |buf|
      requires value == ToNat(ByteBits(buf)[start..pos])
      modifies this
      ensures pos == old(pos) + count && r == ToNat(ByteBits(buf)[start..pos])
    {
      r := value;
      for i := 0 to count
        invariant pos == old(pos) + i && r == ToNat(ByteBits(buf)[start..pos])
      {
        var bit := Shr(buf[pos / 8], 7 - pos % 8) % 2;
        BitOfByte(buf, pos);
        AppendBit(ByteBits(buf), start, pos);
        r := r * 2 + bit;
        pos := pos + 1;
      }
    }

    /** schc_bit_reader_read_bytes: the next nbits, left-aligned, zeros behind. */
    method ReadBytes(n: int, out: array<byte>) returns (ok: bool)
      requires Valid()
      modifies this, out
      ensures Valid()
      ensures ok <==> 0 <= n && (n + 7) / 8 <= out.Length && old(pos) + n <= 8 * |buf|
      ensures ok ==> pos == old(pos) + n &&
                     Holds(out[..(n + 7) / 8], ByteBits(buf)[old(pos)..pos])
      ensures ok ==> out[(n + 7) / 8..] == old(out[(n + 7) / 8..])
      ensures !ok ==> pos == old(pos) && out[..] == old(out[..])
    {
      hide ByteBits;
      if n < 0 { return false; }
      var needed := (n + 7) / 8;
      if needed > out.Length || pos + n > |buf| * 8 { return false; }
      if pos % 8 == 0 && n % 8 == 0 {
        CopyAligned(pos / 8, n / 8, out);
        pos := pos + n;
        return true;
      }
      forall i | 0 <= i < needed {
        out[i] := 0;
      }
      ZeroBuffer(out[..needed]);
      Gather(n, needed, out);
      ok := true;
    }

    method CopyAligned(from: nat, count: nat, out: array<byte>)
      requires from + count <= |buf| && count <= out.Length
      modifies out
      ensures Holds(out[..count], ByteBits(buf)[8 * from..8 * from + 8 * count])
      ensures out[count..] == old(out[count..])
    {
      forall i | 0 <= i < count {
        out[i] := buf[from + i];
      }
      AlignedSlice(buf, from, count);
      assert out[..count] == buf[from..from + count];
    }

    method Gather(n: nat, ghost needed: nat, out: array<byte>)
      requires n <= 8 * needed && needed <= out.Length && pos + n <= 8 * |buf|
      requires Holds(out[..needed], [])
      modifies this, out
      ensures pos == old(pos) + n && Holds(out[..needed], ByteBits(buf)[old(pos)..pos])
      ensures forall k :: needed <= k < out.Length ==> out[k] == old(out[k])
    {
      hide ByteBits;
      ghost var start := pos;
      for i := 0 to n
        invariant pos == start + i && Holds(out[..needed], ByteBits(buf)[start..pos])
        invariant forall k :: needed <= k < out.Length ==> out[k] == old(out[k])
      {
        var bit := Shr(buf[pos / 8], 7 - pos % 8) % 2;
        GatherBit(out[..needed], buf, start, pos);
        ghost var was := out[..needed];
        out[i / 8] := Or(out[i / 8], bit * Pow2(7 - i % 8));
        assert out[..needed] == was[i / 8 := Or(was[i / 8], bit * Pow2(7 - i % 8))];
        pos := pos + 1;
      }
    }
  }

  lemma AppendBit(bits: seq<bool>, start: nat, pos: nat)
    requires start <= pos < |bits|
    ensures ToNat(bits[start..pos + 1]) ==
            2 * ToNat(bits[start..pos]) + if bits[pos] then 1 else 0
  {
    var s := bits[start..pos + 1];
    assert s[..|s| - 1] == bits[start..pos];
  }

  lemma {:induction false} ToNatConcat(a: seq<bool>, b: seq<bool>)
    ensures ToNat(a + b) == ToNat(a) * Pow2(|b|) + ToNat(b)
    decreases |b|
  {
    if b == [] {
      assert a + b == a;
    } else {
      var n := |b| - 1;
      ToNatConcat(a, b[..n]);
      assert a + b == (a + b[..n]) + [b[n]] && b == b[..n] + [b[n]];
      hide Pow2, ToNat;
      ToNatSnoc(a + b[..n], b[n]);
      ToNatSnoc(b[..n], b[n]);
      Pow2Step(n);
      Doubled(ToNat(a), Pow2(n), ToNat(b[..n]), if b[n] then 1 else 0);
    }
  }

  lemma Doubled(x: nat, y: nat, z: nat, c: nat)
    ensures 2 * (x * y + z) + c == x * (2 * y) + (2 * z + c)
  {
    DoubleProduct(x, y);
  }

  lemma ToNatSnoc(s: seq<bool>, bit: bool)
    ensures ToNat(s + [bit]) == 2 * ToNat(s) + (if bit then 1 else 0)
  {
    assert (s + [bit])[..|s|] == s;
  }

  lemma Pow2Step(n: nat)
    ensures Pow2(n + 1) == 2 * Pow2(n)
  {
  }

  lemma DoubleProduct(x: nat, y: nat)
    ensures 2 * (x * y) == x * (2 * y)
  {
  }

  lemma AppendByte(buf: seq<byte>, start: nat, i: nat)
    requires start <= 8 * i && i < |buf|
    ensures ToNat(ByteBits(buf)[start..8 * i + 8]) == ToNat(ByteBits(buf)[start..8 * i]) * 256 + buf[i]
  {
    hide ByteBits, Octet, ToNat;
    var bits := ByteBits(buf);
    OctetSlice(buf, i);
    assert bits[start..8 * i + 8] == bits[start..8 * i] + bits[8 * i..8 * i + 8];
    AppendOctet(bits[start..8 * i], buf[i]);
  }

  lemma AppendOctet(a: seq<bool>, b: byte)
    ensures ToNat(a + Octet(b)) == ToNat(a) * 256 + b
  {
    hide Octet, ToNat;
    ToNatConcat(a, Octet(b));
    OctetValue(b);
    assert Pow2(8) == 256;
  }

  lemma NoShift(value: nat)
    ensures Shr(value, 0) == value && forall n: nat :: |LowBits(Shr(value, n), 0)| == 0
  {
  }

  lemma NoBits()
    ensures ToNat([]) == 0
  {
  }

  lemma AlignedSlice(buf: seq<byte>, i: nat, n: nat)
    requires i + n <= |buf|
    ensures ByteBits(buf[i..i + n]) == ByteBits(buf)[8 * i..8 * i + 8 * n]
  {
    hide ByteBits, Octet;
    var part := ByteBits(buf[i..i + n]);
    forall k | 0 <= k < 8 * n
      ensures part[k] == ByteBits(buf)[8 * i + k]
    {
      PartBit(buf, i, n, k);
    }
    SliceIs(part, ByteBits(buf), 8 * i);
  }

  lemma PartBit(buf: seq<byte>, i: nat, n: nat, k: nat)
    requires i + n <= |buf| && k < 8 * n
    ensures ByteBits(buf[i..i + n])[k] == ByteBits(buf)[8 * i + k]
  {
    hide ByteBits, Octet;
    ByteBitsAt(buf[i..i + n], k);
    ByteBitsAt(buf, 8 * i + k);
    BitPlace(i, k);
    assert buf[i..i + n][k / 8] == buf[i + k / 8];
  }

  lemma SliceIs(x: seq<bool>, bits: seq<bool>, at: nat)
    requires at + |x| <= |bits| && forall k :: 0 <= k < |x| ==> x[k] == bits[at + k]
    ensures x == bits[at..at + |x|]
  {
  }

  lemma NextByte(at: nat)
    ensures (at + 8) % 8 == at % 8
  {
  }

  lemma BitPlace(i: nat, k: nat)
    ensures (8 * i + k) / 8 == i + k / 8 && (8 * i + k) % 8 == k % 8
  {
  }

  lemma OctetSlice(bytes: seq<byte>, i: nat)
    requires i < |bytes|
    ensures ByteBits(bytes)[8 * i..8 * i + 8] == Octet(bytes[i])
  {
    hide Octet;
    hide ByteBits;
    forall k | 0 <= k < 8
      ensures Octet(bytes[i])[k] == ByteBits(bytes)[8 * i + k]
    {
      assert (8 * i + k) / 8 == i && (8 * i + k) % 8 == k;
      ByteBitsAt(bytes, 8 * i + k);
    }
  }

  lemma GatherBit(out: seq<byte>, buf: seq<byte>, start: nat, pos: nat)
    requires start <= pos < 8 * |buf| && pos - start < 8 * |out|
    requires Holds(out, ByteBits(buf)[start..pos])
    ensures var i := pos - start;
            var bit := Shr(buf[pos / 8], 7 - pos % 8) % 2;
            && bit * Pow2(7 - i % 8) < 256
            && Holds(out[i / 8 := Or(out[i / 8], bit * Pow2(7 - i % 8))],
                     ByteBits(buf)[start..pos + 1])
  {
    hide ByteBits, Or, Holds, Pow2;
    var bits := ByteBits(buf)[start..pos];
    var bit := Shr(buf[pos / 8], 7 - pos % 8) % 2;
    Pow2Small();
    OrAppends(out, bits, bit, 1, 7 - |bits| % 8);
    BitOfByte(buf, pos);
    assert Shr(bit, 0) == bit;
    assert LowBits(bit, 1) == [bit == 1];
    assert bits + [ByteBits(buf)[pos]] == ByteBits(buf)[start..pos + 1];
  }

  // ------------------------------------------------------------ round trip

  /** One call of the 64-bit or of the 128-bit writer. */
  datatype Field = Word(value: nat, width: nat) | Wide(bytes: seq<byte>, width: nat)

  predicate ValidField(f: Field) {
    match f
    case Word(_, width) => width <= 64
    case Wide(bytes, width) => |bytes| == 16 && width <= 128
  }

  function FieldBits(f: Field): (bits: seq<bool>)
    requires ValidField(f)
    ensures |bits| == f.width
  {
    match f
    case Word(value, width) => LowBits(value, width)
    case Wide(bytes, width) => ByteBits(bytes)[..width]
  }

  predicate ValidFields(fields: seq<Field>) {
    forall k :: 0 <= k < |fields| ==> ValidField(fields[k])
  }

  /** The bits of the first k fields. */
  function AllBits(fields: seq<Field>, k: nat): (bits: seq<bool>)
    requires ValidFields(fields) && k <= |fields|
  {
    if k == 0 then [] else AllBits(fields, k - 1) + FieldBits(fields[k - 1])
  }

  lemma {:induction false} AllBitsGrow(fields: seq<Field>, k: nat, n: nat)
    requires ValidFields(fields) && k <= n <= |fields|
    ensures AllBits(fields, k) <= AllBits(fields, n)
    decreases n
  {
    hide FieldBits;
    if k < n {
      AllBitsGrow(fields, k, n - 1);
    }
  }

  method WriteAll(w: BitWriter, fields: seq<Field>) returns (ok: bool)
    requires w.Valid() && w.nbits == 0 && ValidFields(fields)
    modifies w, w.buf
    ensures w.Valid()
    ensures ok <==> |AllBits(fields, |fields|)| <= 8 * w.buf.Length
    ensures ok ==> w.Contents() == AllBits(fields, |fields|)
  {
    hide FieldBits;
    assert w.Contents() == [];
    for k := 0 to |fields|
      invariant w.Valid() && w.Contents() == AllBits(fields, k)
    {
      AllBitsGrow(fields, k + 1, |fields|);
      ok := WriteField(w, fields[k]);
      if !ok { return; }
    }
    ok := true;
  }

  method WriteField(w: BitWriter, f: Field) returns (ok: bool)
    requires w.Valid() && ValidField(f)
    modifies w, w.buf
    ensures w.Valid()
    ensures ok <==> old(w.nbits) + f.width <= 8 * w.buf.Length
    ensures ok ==> w.Contents() == old(w.Contents()) + FieldBits(f)
  {
    hide ByteBits;
    match f
    case Word(value, width) =>
      ok := w.Write(value, width);
    case Wide(bytes, width) =>
      ok := w.Write128(bytes, width);
  }

  /** Same width and kind, and the same bits; a word comes back modulo
      2^width. */
  ghost predicate ReadBack(f: Field, back: Field)
    requires ValidField(f)
  {
    && ValidField(back) && back.Word? == f.Word? && back.width == f.width
    && FieldBits(back) == FieldBits(f)
    && (f.Word? ==> back.value == f.value % Pow2(f.width))
  }

  method ReadField(r: BitReader, f: Field) returns (back: Field)
    requires r.Valid() && ValidField(f) && r.pos + f.width <= 8 * |r.buf|
    requires ByteBits(r.buf)[r.pos..r.pos + f.width] == FieldBits(f)
    modifies r
    ensures r.Valid() && r.pos == old(r.pos) + f.width && ReadBack(f, back)
  {
    match f
    case Word(value, width) =>
      var v := r.Read(width);
      ToNatLowBits(value, width);
      LowBitsToNat(LowBits(value, width));
      back := Word(v.value, width);
    case Wide(bytes, width) =>
      var out := new byte[16](_ => 0);
      var ok := r.ReadBytes(width, out);
      back := Wide(out[..], width);
      WidePrefix(out[..], (width + 7) / 8, ByteBits(bytes)[..width]);
  }

  lemma WidePrefix(out: seq<byte>, n: nat, bits: seq<bool>)
    requires n <= |out| && Holds(out[..n], bits)
    ensures ByteBits(out)[..|bits|] == bits
  {
    hide ByteBits;
    ByteBitsConcat(out[..n], out[n..]);
    assert out == out[..n] + out[n..];
  }

  /** Any list of mixed 64- and 128-bit writes that fits the buffer reads back
      field by field with the same widths. */
  method WriteThenRead(fields: seq<Field>, length: nat) returns (ok: bool, back: seq<Field>)
    requires ValidFields(fields)
    ensures ok <==> |AllBits(fields, |fields|)| <= 8 * length
    ensures ok ==> |back| == |fields| && forall k :: 0 <= k < |fields| ==> ReadBack(fields[k], back[k])
  {
    hide FieldBits;
    hide ByteBits;
    hide ReadBack;
    var w := new BitWriter(length);
    ok := WriteAll(w, fields);
    back := [];
    if ok {
      var r := new BitReader(w.buf[..]);
      assert AllBits(fields, |fields|) <= ByteBits(r.buf);
      back := ReadAll(r, fields);
    }
  }

  method ReadAll(r: BitReader, fields: seq<Field>) returns (back: seq<Field>)
    requires r.Valid() && r.pos == 0 && ValidFields(fields)
    requires AllBits(fields, |fields|) <= ByteBits(r.buf)
    modifies r
    ensures |back| == |fields| && forall k :: 0 <= k < |fields| ==> ReadBack(fields[k], back[k])
  {
    hide FieldBits;
    hide ByteBits;
    hide ReadBack;
    back := [];
    for k := 0 to |fields|
      invariant r.Valid() && |back| == k && r.pos == |AllBits(fields, k)|
      invariant forall i :: 0 <= i < k ==> ReadBack(fields[i], back[i])
    {
      AllBitsGrow(fields, k + 1, |fields|);
      FieldAt(fields, k, ByteBits(r.buf));
      var f := ReadField(r, fields[k]);
      back := back + [f];
    }
  }

  lemma FieldAt(fields: seq<Field>, k: nat, bits: seq<bool>)
    requires ValidFields(fields) && k < |fields| && AllBits(fields, k + 1) <= bits
    ensures var at := |AllBits(fields, k)|;
            at + fields[k].width <= |bits| && bits[at..at + fields[k].width] == FieldBits(fields[k])
  {
    hide FieldBits;
    var b := AllBits(fields, k + 1);
    assert bits[..|b|] == b;
    assert b[|AllBits(fields, k)|..] == FieldBits(fields[k]);
  }
}

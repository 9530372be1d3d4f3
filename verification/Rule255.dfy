/** Structure check of an uncompressed IPv6 packet: rule255_validate and
    rule255_udp_checksum. */
module Rule255 {
  import opened Bits

  type Address = a: seq<byte> | |a| == 16 witness seq(16, _ => 0)

  function Be16(d: seq<byte>, at: nat): (v: nat)
    requires at + 2 <= |d|
    ensures v < 65536
  {
    d[at] as int * 256 + d[at + 1]
  }

  /** The 16-bit big-endian words of data, an odd last byte padded with zero. */
  function WordSum(data: seq<byte>): (sum: nat) {
    if |data| == 0 then 0
    else if |data| == 1 then data[0] as int * 256
    else Be16(data, 0) + WordSum(data[2..])
  }

  /** Section 8.1 of RFC 8200: pseudo-header, then the datagram. */
  function PseudoSum(src: Address, dst: Address, udp: seq<byte>): (sum: nat) {
    WordSum(src) + WordSum(dst) + |udp| + 17 + WordSum(udp)
  }

  /** RFC 1071: the one's-complement sum of a nonzero total, in 1..65535. */
  function OnesSum(total: nat): (s: nat)
    requires total > 0
    ensures 1 <= s <= 65535 && s % 65535 == total % 65535
  {
    1 + (total - 1) % 65535
  }

  lemma {:induction false} WordSumBound(data: seq<byte>)
    ensures WordSum(data) <= (|data| + 1) / 2 * 65535
    decreases |data|
  {
    if |data| >= 2 {
      WordSumBound(data[2..]);
    }
  }

  lemma {:induction false} WordSumTake(data: seq<byte>, i: nat)
    requires i % 2 == 0 && i + 2 <= |data|
    ensures WordSum(data[..i + 2]) == WordSum(data[..i]) + Be16(data, i)
    decreases i
  {
    if i > 0 {
      WordSumTake(data[2..], i - 2);
      assert data[2..][..i] == data[..i + 2][2..];
      assert data[2..][..i - 2] == data[..i][2..];
    }
  }

  lemma {:induction false} WordSumOdd(data: seq<byte>, i: nat)
    requires i % 2 == 0 && i + 1 == |data|
    ensures WordSum(data) == WordSum(data[..i]) + data[i] as int * 256
    decreases i
  {
    if i > 0 {
      WordSumOdd(data[2..], i - 2);
      assert data[2..][..i - 2] == data[..i][2..];
    }
  }

  // ------------------------------------------------------------- checksum

  const WORD32: nat := 0x1_0000_0000

  /** The summing loops; no 32-bit sum overflows. */
  method SumWords(start: nat, data: seq<byte>) returns (sum: nat)
    requires |data| <= 65535 && start < 65535 * 40
    ensures sum == start + WordSum(data) < WORD32
  {
    sum := start;
    var i := 0;
    while i + 1 < |data|
      invariant 0 <= i <= |data| && i % 2 == 0
      invariant sum == start + WordSum(data[..i])
      invariant sum < WORD32
    {
      WordSumTake(data, i);
      WordSumBound(data[..i + 2]);
      sum := sum + Be16(data, i);
      i := i + 2;
    }
    if |data| % 2 != 0 {
      WordSumOdd(data, i);
      WordSumBound(data);
      sum := sum + data[|data| - 1] as int * 256;
    } else {
      assert data[..i] == data;
      WordSumBound(data);
    }
  }

  /** while (sum >> 16) sum = (sum & 0xffff) + (sum >> 16) */
  method Fold(total: nat) returns (sum: nat)
    requires 0 < total < WORD32
    ensures sum == OnesSum(total)
  {
    sum := total;
    while sum / 65536 != 0
      invariant 0 < sum < WORD32 && sum % 65535 == total % 65535
      decreases sum
    {
      FoldStep(sum);
      sum := sum % 65536 + sum / 65536;
    }
    SameOnesSum(sum, total);
  }

  lemma FoldStep(sum: nat)
    requires sum >= 65536
    ensures 0 < sum % 65536 + sum / 65536 < sum
    ensures (sum % 65536 + sum / 65536) % 65535 == sum % 65535
  {
    var q, r := sum / 65536, sum % 65536;
    assert sum == q * 65535 + (r + q);
    AddMultiple(r + q, q);
  }

  lemma {:induction false} AddMultiple(a: nat, q: nat)
    ensures (q * 65535 + a) % 65535 == a % 65535
    decreases q
  {
    if q > 0 {
      AddMultiple(a, q - 1);
    }
  }

  lemma SameOnesSum(a: nat, b: nat)
    requires 0 < a <= 65535 && b > 0 && a % 65535 == b % 65535
    ensures a == OnesSum(b)
  {
  }

  /** rule255_udp_checksum */
  method UdpChecksum(src: Address, dst: Address, udp: seq<byte>) returns (c: nat)
    requires |udp| <= 65535
    ensures c == 65535 - OnesSum(PseudoSum(src, dst, udp))
    ensures c == 0 <==> PseudoSum(src, dst, udp) % 65535 == 0
  {
    WordSumBound(src);
    WordSumBound(dst);
    var sum := SumWords(0, src);
    sum := SumWords(sum, dst);
    sum := sum + |udp| + 17;
    sum := SumWords(sum, udp);
    sum := Fold(sum);
    c := 65535 - sum;
  }

  /** A checksum computed over a zero field and stored there, with 0xffff for
      zero, always verifies. */
  lemma ComputedChecksumVerifies(src: Address, dst: Address, udp: seq<byte>, filled: seq<byte>)
    requires |udp| >= 8 && udp[6] == 0 && udp[7] == 0
    requires |filled| == |udp| && filled[..6] == udp[..6] && filled[8..] == udp[8..]
    requires var c := 65535 - OnesSum(PseudoSum(src, dst, udp));
             Be16(filled, 6) == if c == 0 then 65535 else c
    ensures Be16(filled, 6) != 0 && PseudoSum(src, dst, filled) % 65535 == 0
  {
    FieldSum(udp);
    FieldSum(filled);
    var total := PseudoSum(src, dst, udp);
    var c := 65535 - OnesSum(total);
    assert PseudoSum(src, dst, filled) == total + Be16(filled, 6);
  }

  lemma FieldSum(udp: seq<byte>)
    requires |udp| >= 8
    ensures WordSum(udp) == WordSum(udp[..6]) + Be16(udp, 6) + WordSum(udp[8..])
  {
    var a, b, c := udp[2..], udp[4..], udp[6..];
    assert a[2..] == b && b[2..] == c && c[2..] == udp[8..];
    assert Be16(a, 0) == Be16(udp, 2) && Be16(b, 0) == Be16(udp, 4) && Be16(c, 0) == Be16(udp, 6);
    HeadSum(udp);
  }

  lemma HeadSum(udp: seq<byte>)
    requires |udp| >= 6
    ensures WordSum(udp[..6]) == Be16(udp, 0) + Be16(udp, 2) + Be16(udp, 4)
  {
    var h := udp[..6];
    var i, j := h[2..], h[4..];
    assert i[2..] == j && j[2..] == [];
    assert WordSum(h) == Be16(h, 0) + WordSum(i);
    assert WordSum(i) == Be16(i, 0) + WordSum(j);
    assert WordSum(j) == Be16(j, 0) + WordSum([]);
  }

  // ----------------------------------------------------------- validation

  /** Where the upper-layer payload starts, and the address it is for. */
  datatype Upper = Malformed | Upper(protocol: byte, offset: nat, dst: Address)

  predicate Extension(next: byte) {
    next == 0 || next == 43 || next == 60
  }

  function ExtensionLength(pkt: seq<byte>, offset: nat): (n: nat)
    requires offset + 2 <= |pkt|
    ensures n >= 8
  {
    (pkt[offset + 1] as int + 1) * 8
  }

  /** RFC 6554 source routing header only: type 3, full addresses. */
  predicate RoutingOk(pkt: seq<byte>, offset: nat)
    requires offset + 8 <= |pkt|
  {
    var n := ExtensionLength(pkt, offset);
    && n >= 24 && pkt[offset + 2] == 3 && pkt[offset + 4] == 0 && pkt[offset + 5] == 0
    && pkt[offset + 3] <= (n - 8) / 16
  }

  /** The extension-header chain from `offset`, one header at a time. */
  function Chain(pkt: seq<byte>, next: byte, offset: nat, dst: Address): (u: Upper)
    requires offset <= |pkt|
    ensures u.Upper? ==> offset <= u.offset <= |pkt| && !Extension(u.protocol) && u.protocol != 44
    decreases |pkt| - offset
  {
    if next == 44 then Malformed
    else if !Extension(next) then Upper(next, offset, dst)
    else if offset + 2 > |pkt| then Malformed
    else
      var end := offset + ExtensionLength(pkt, offset);
      if end > |pkt| then Malformed
      else if next == 43 && !RoutingOk(pkt, offset) then Malformed
      else
        var dst' := if next == 43 && pkt[offset + 3] != 0 then pkt[end - 16..end] else dst;
        Chain(pkt, pkt[offset], end, dst')
  }

  /** What a deliverable packet is. */
  predicate WellFormed(pkt: seq<byte>) {
    && |pkt| >= 40 && pkt[0] / 16 == 6 && |pkt| == 40 + Be16(pkt, 4)
    && var u := Chain(pkt, pkt[6], 40, pkt[24..40]);
       && u.Upper?
       && (u.protocol == 17 ==> UdpOk(pkt[8..24], u.dst, pkt[u.offset..]))
  }

  /** A UDP datagram whose length and mandatory checksum hold. */
  predicate UdpOk(src: Address, dst: Address, udp: seq<byte>) {
    && |udp| >= 8 && Be16(udp, 4) == |udp| && Be16(udp, 6) != 0
    && PseudoSum(src, dst, udp) % 65535 == 0
  }

  /** rule255_validate: every read is in bounds, the walk ends, and exactly the
      well-formed packets pass. */
  method Validate(pkt: seq<byte>) returns (ok: bool)
    ensures ok == WellFormed(pkt)
  {
    if |pkt| < 40 { return false; }
    if pkt[0] / 16 != 6 { return false; }
    if |pkt| != 40 + Be16(pkt, 4) { return false; }
    var next, offset, dst, bad := Walk(pkt);
    if bad { return false; }
    if next == 17 {
      ok := CheckUdp(pkt[8..24], dst, pkt[offset..]);
      return;
    }
    return true;
  }

  method Walk(pkt: seq<byte>) returns (next: byte, offset: nat, dst: Address, bad: bool)
    requires |pkt| >= 40
    ensures offset <= |pkt|
    ensures Chain(pkt, pkt[6], 40, pkt[24..40]) ==
            if bad then Malformed else Upper(next, offset, dst)
  {
    next, offset, dst, bad := pkt[6], 40, pkt[24..40], false;
    ghost var result := Chain(pkt, pkt[6], 40, pkt[24..40]);
    while true
      invariant offset <= |pkt| && Chain(pkt, next, offset, dst) == result
      decreases |pkt| - offset
    {
      if next == 44 { return next, offset, dst, true; }
      if next != 0 && next != 43 && next != 60 { break; }
      if offset + 2 > |pkt| { return next, offset, dst, true; }
      var length := (pkt[offset + 1] as int + 1) * 8;
      var end := offset + length;
      if end > |pkt| { return next, offset, dst, true; }
      if next == 43 {
        if length < 24 || pkt[offset + 2] != 3 || pkt[offset + 4] != 0 || pkt[offset + 5] != 0 {
          return next, offset, dst, true;
        }
        var addresses := (length - 8) / 16;
        var segments := pkt[offset + 3];
        if segments > addresses { return next, offset, dst, true; }
        if segments != 0 {
          dst := pkt[end - 16..end];
        }
      }
      next := pkt[offset];
      offset := end;
    }
  }

  method CheckUdp(src: Address, dst: Address, udp: seq<byte>) returns (ok: bool)
    ensures ok == UdpOk(src, dst, udp)
  {
    if |udp| < 8 { return false; }
    var length := Be16(udp, 4);
    if length < 8 || length != |udp| { return false; }
    if Be16(udp, 6) == 0 { return false; }
    var c := UdpChecksum(src, dst, udp);
    return c == 0;
  }
}

/** The address namespaces of the collision detector: _normalize_address. */
module Addresses {
  import opened Options
  import opened Ordering

  datatype Kind = LinkLocal | Native

  /** An address within its namespace. */
  datatype Address = Address(kind: Kind, packed: seq<nat>, scope: Option<string>)

  /** A parsed IPv6 address, with the zone written behind it, if any. */
  datatype Parsed = Unparsable | Parsed(packed: seq<nat>, zone: Option<string>)

  predicate Packed(packed: seq<nat>) {
    |packed| == 16 && forall i :: 0 <= i < 16 ==> packed[i] < 256
  }

  /** The characters for which str.isspace holds. */
  predicate Space(c: char) {
    var n := c as int;
    || 0x09 <= n <= 0x0d || 0x1c <= n <= 0x20 || n == 0x85 || n == 0xa0 || n == 0x1680
    || 0x2000 <= n <= 0x200a || n == 0x2028 || n == 0x2029 || n == 0x202f || n == 0x205f || n == 0x3000
  }

  predicate ScopeOk(scope: Option<string>) {
    scope.Some? && scope.value != "" && forall i :: 0 <= i < |scope.value| ==>
      scope.value[i] != '%' && !Space(scope.value[i])
  }

  /** Native addresses have no scope; link-local ones need one, and a zone must
      not contradict it. Nothing else is tracked. */
  function Normalize(p: Parsed, link: Option<string>): Option<Address> {
    if p.Unparsable? || !Packed(p.packed) then None
    else if p.packed[0] == 0x02 then
      if p.zone.Some? || link.Some? then None else Some(Address(Native, p.packed, None))
    else if p.packed[0] == 0xfe && p.packed[1] / 64 == 2 then
      var scope := if link.Some? then link else p.zone;
      if p.zone.Some? && link.Some? && p.zone != link then None
      else if !ScopeOk(scope) then None
      else Some(Address(LinkLocal, p.packed, scope))
    else None
  }

  /** What the detector stores addresses as. */
  predicate Normal(a: Address) {
    && Packed(a.packed)
    && match a.kind
       case Native => a.packed[0] == 0x02 && a.scope == None
       case LinkLocal => a.packed[0] == 0xfe && a.packed[1] / 64 == 2 && ScopeOk(a.scope)
  }

  /** Normal forms are exactly the results, and their own normal forms. */
  lemma NormalExactly(a: Address)
    ensures Normal(a) <==> exists p, link :: Normalize(p, link) == Some(a)
    ensures Normal(a) <==> Normalize(Parsed(a.packed, None), a.scope) == Some(a)
  {
    if Normal(a) {
      assert Normalize(Parsed(a.packed, None), a.scope) == Some(a);
    }
  }

  /** The sort key of a snapshot: kind, address, scope. */
  function Rank(a: Address): (r: seq<nat>) {
    [if a.kind == LinkLocal then 0 else 1] + a.packed + Codes(if a.scope.Some? then a.scope.value else "")
  }

  function Codes(s: string): (r: seq<nat>)
    ensures |r| == |s|
  {
    seq(|s|, i requires 0 <= i < |s| => s[i] as int)
  }

  lemma RankInjective(a: Address, b: Address)
    requires Normal(a) && Normal(b) && Rank(a) == Rank(b)
    ensures a == b
  {
    assert Rank(a)[0] == Rank(b)[0];
    assert a.packed == Rank(a)[1..17] && b.packed == Rank(b)[1..17];
    if a.kind == LinkLocal {
      var s, t := a.scope.value, b.scope.value;
      assert Codes(s) == Rank(a)[17..] && Codes(t) == Rank(b)[17..];
      forall i | 0 <= i < |s|
        ensures s[i] == t[i]
      {
        assert Codes(s)[i] == Codes(t)[i];
      }
      assert s == t;
    }
  }
}

/** Lexicographic order, and the one ascending list of a finite set. */
module Ordering {

  predicate Less(a: seq<nat>, b: seq<nat>) {
    if b == [] then false
    else if a == [] then true
    else a[0] < b[0] || (a[0] == b[0] && Less(a[1..], b[1..]))
  }

  /** Of two lists one comes first, unless they are the same. */
  lemma {:induction false} Trichotomy(a: seq<nat>, b: seq<nat>)
    ensures !(Less(a, b) && Less(b, a))
    ensures a == b <==> !Less(a, b) && !Less(b, a)
  {
    if a != [] && b != [] {
      Trichotomy(a[1..], b[1..]);
      assert a == [a[0]] + a[1..] && b == [b[0]] + b[1..];
    }
  }

  lemma {:induction false} Transitive(a: seq<nat>, b: seq<nat>, c: seq<nat>)
    requires Less(a, b) && Less(b, c)
    ensures Less(a, c)
  {
    if a != [] && a[0] == b[0] == c[0] {
      Transitive(a[1..], b[1..], c[1..]);
    }
  }

  ghost predicate Ascending(s: seq<seq<nat>>) {
    forall i, j :: 0 <= i < j < |s| ==> Less(s[i], s[j])
  }

  ghost predicate SameElements(r: seq<seq<nat>>, s: set<seq<nat>>) {
    forall x :: x in r <==> x in s
  }

  /** A new element in its place. */
  method Insert(r: seq<seq<nat>>, x: seq<nat>) returns (t: seq<seq<nat>>)
    requires Ascending(r) && x !in r
    ensures Ascending(t) && forall y :: y in t <==> y == x || y in r
  {
    var i := 0;
    while i < |r| && Less(r[i], x)
      invariant 0 <= i <= |r| && forall j :: 0 <= j < i ==> Less(r[j], x)
    {
      i := i + 1;
    }
    forall j | i <= j < |r|
      ensures Less(x, r[j])
    {
      Trichotomy(r[i], x);
      assert r[i] in r;
      if i < j {
        Transitive(x, r[i], r[j]);
      }
    }
    t := r[..i] + [x] + r[i..];
    assert forall y :: y in r <==> y in r[..i] || y in r[i..] by {
      assert r == r[..i] + r[i..];
    }
  }

  method Sort(s: set<seq<nat>>) returns (r: seq<seq<nat>>)
    ensures r == Sorted(s)
  {
    r := [];
    var pending := s;
    while pending != {}
      invariant pending <= s && Ascending(r) && SameElements(r, s - pending)
      decreases pending
    {
      var x :| x in pending;
      r := Insert(r, x);
      pending := pending - {x};
    }
    assert s - pending == s;
    OneOrder(r, Sorted(s), s);
  }

  /** The ascending list of the elements. */
  ghost function Sorted(s: set<seq<nat>>): (r: seq<seq<nat>>)
    ensures Ascending(r) && SameElements(r, s)
  {
    if s == {} then []
    else
      var m := Least(s);
      LeastFirst(s, m, Sorted(s - {m}));
      [m] + Sorted(s - {m})
  }

  ghost function Least(s: set<seq<nat>>): (m: seq<nat>)
    requires s != {}
    ensures m in s && forall x :: x in s && x != m ==> Less(m, x)
  {
    var y :| y in s;
    if s == {y} then y
    else
      var m := Least(s - {y});
      LeastOfTwo(s, y, m);
      if Less(y, m) then y else m
  }

  lemma LeastOfTwo(s: set<seq<nat>>, y: seq<nat>, m: seq<nat>)
    requires y in s && m in s && y != m && forall x :: x in s && x != y && x != m ==> Less(m, x)
    ensures var l := if Less(y, m) then y else m; forall x :: x in s && x != l ==> Less(l, x)
  {
    Trichotomy(y, m);
    forall x | x in s && x != y && x != m && Less(y, m)
      ensures Less(y, x)
    {
      Transitive(y, m, x);
    }
  }

  lemma LeastFirst(s: set<seq<nat>>, m: seq<nat>, r: seq<seq<nat>>)
    requires m in s && (forall x :: x in s && x != m ==> Less(m, x))
    requires Ascending(r) && SameElements(r, s - {m})
    ensures Ascending([m] + r) && SameElements([m] + r, s)
  {
    var t := [m] + r;
    forall i, j | 0 <= i < j < |t|
      ensures Less(t[i], t[j])
    {
      assert t[j] == r[j - 1] && r[j - 1] in r;
    }
  }

  /** A set has only one ascending list. */
  lemma {:induction false} OneOrder(a: seq<seq<nat>>, b: seq<seq<nat>>, s: set<seq<nat>>)
    requires Ascending(a) && SameElements(a, s) && Ascending(b) && SameElements(b, s)
    ensures a == b
    decreases |a|
  {
    SameEmpty(a, s);
    SameEmpty(b, s);
    if a != [] {
      SameFirst(a, b, s);
      TailElements(a, s);
      TailElements(b, s);
      OneOrder(a[1..], b[1..], s - {a[0]});
      assert a == [a[0]] + a[1..] && b == [b[0]] + b[1..];
    }
  }

  lemma SameEmpty(a: seq<seq<nat>>, s: set<seq<nat>>)
    requires SameElements(a, s)
    ensures a == [] <==> s == {}
  {
    if a != [] {
      assert a[0] in a;
    } else {
      assert forall x :: x !in s;
    }
  }

  lemma SameFirst(a: seq<seq<nat>>, b: seq<seq<nat>>, s: set<seq<nat>>)
    requires Ascending(a) && SameElements(a, s) && Ascending(b) && SameElements(b, s) && a != [] && b != []
    ensures a[0] == b[0]
  {
    assert a[0] in s && b[0] in s;
    var i :| 0 <= i < |b| && b[i] == a[0];
    var j :| 0 <= j < |a| && a[j] == b[0];
    if i > 0 && j > 0 {
      Trichotomy(a[0], b[0]);
    }
  }

  lemma TailElements(a: seq<seq<nat>>, s: set<seq<nat>>)
    requires Ascending(a) && SameElements(a, s) && a != []
    ensures Ascending(a[1..]) && SameElements(a[1..], s - {a[0]})
  {
    var t := a[1..];
    assert a == [a[0]] + t;
    forall x
      ensures x in t <==> x in s - {a[0]}
    {
      if x in t {
        var i :| 0 <= i < |t| && t[i] == x;
        Trichotomy(a[0], a[i + 1]);
      }
    }
  }
}

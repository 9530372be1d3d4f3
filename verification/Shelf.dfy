/** Timed records on a byte budget: what is still alive, and which oldest
    records go so that a new one fits. */
module Shelf {
  import opened Options

  datatype Item<D> = Item(id: string, created: real, ttl: nat, size: nat, data: D)

  predicate Alive<D>(item: Item<D>, now: real) {
    now - item.created < item.ttl as real
  }

  function Live<D>(items: seq<Item<D>>, now: real): seq<Item<D>> {
    if items == [] then []
    else if Alive(items[0], now) then [items[0]] + Live(items[1..], now)
    else Live(items[1..], now)
  }

  function Total<D>(items: seq<Item<D>>): nat {
    if items == [] then 0 else items[0].size + Total(items[1..])
  }

  /** Distinct identifiers, oldest first. */
  ghost predicate Ordered<D>(items: seq<Item<D>>) {
    forall i, j :: 0 <= i < j < |items| ==>
      items[i].id != items[j].id && items[i].created <= items[j].created
  }

  lemma {:induction false} LiveMember<D>(items: seq<Item<D>>, now: real, item: Item<D>)
    ensures item in Live(items, now) <==> item in items && Alive(item, now)
  {
    if items != [] {
      LiveMember(items[1..], now, item);
      assert items == [items[0]] + items[1..];
    }
  }

  lemma {:induction false} LiveExact<D>(items: seq<Item<D>>, now: real)
    requires Ordered(items)
    ensures Ordered(Live(items, now)) && Total(Live(items, now)) <= Total(items)
    ensures forall item :: item in Live(items, now) <==> item in items && Alive(item, now)
  {
    if items != [] {
      var rest := items[1..];
      assert items == [items[0]] + rest;
      assert forall i :: 0 <= i < |rest| ==> rest[i] == items[i + 1];
      assert Ordered(rest);
      LiveExact(rest, now);
      var live := Live(rest, now);
      forall j | 0 <= j < |live|
        ensures items[0].id != live[j].id && items[0].created <= live[j].created
      {
        LiveMember(rest, now, live[j]);
      }
    }
    forall item: Item<D>
      ensures item in Live(items, now) <==> item in items && Alive(item, now)
    {
      LiveMember(items, now, item);
    }
  }

  lemma {:induction false} TotalAppend<D>(items: seq<Item<D>>, item: Item<D>)
    ensures Total(items + [item]) == Total(items) + item.size
  {
    if items == [] {
      assert items + [item] == [item];
    } else {
      TotalAppend(items[1..], item);
      assert (items + [item])[1..] == items[1..] + [item];
    }
  }

  /** Oldest records go first, until the rest is within `room`. */
  function Fit<D>(items: seq<Item<D>>, room: int): seq<Item<D>> {
    if items == [] || Total(items) <= room then items else Fit(items[1..], room)
  }

  /** What stays is the longest run of newest records that fits. */
  lemma {:induction false} FitLongest<D>(items: seq<Item<D>>, room: int)
    ensures |Fit(items, room)| <= |items|
    ensures var k := |items| - |Fit(items, room)|;
            && Fit(items, room) == items[k..]
            && (forall j :: 0 <= j < k ==> Total(items[j..]) > room)
    ensures room >= 0 ==> Total(Fit(items, room)) <= room
  {
    if items != [] && Total(items) > room {
      var rest := items[1..];
      FitLongest(rest, room);
      var k := |rest| - |Fit(rest, room)|;
      assert rest[k..] == items[k + 1..];
      forall j | 0 <= j < k + 1
        ensures Total(items[j..]) > room
      {
        if j == 0 {
          assert items[0..] == items;
        } else {
          assert items[j..] == rest[j - 1..];
        }
      }
    }
  }

  predicate Named<D>(items: seq<Item<D>>, id: string) {
    exists i :: 0 <= i < |items| && items[i].id == id
  }

  /** Only stored, living records are kept, so no name is new. */
  lemma KeptFrom<D>(items: seq<Item<D>>, now: real, room: int)
    requires Ordered(items)
    ensures forall item :: item in Fit(Live(items, now), room) ==> item in items && Alive(item, now)
    ensures forall id :: Named(Fit(Live(items, now), room), id) ==> Named(items, id)
  {
    LiveExact(items, now);
    FitLongest(Live(items, now), room);
    var kept := Fit(Live(items, now), room);
    forall id | Named(kept, id)
      ensures Named(items, id)
    {
      var i :| 0 <= i < |kept| && kept[i].id == id;
      assert kept[i] in items;
    }
  }

  /** A new record of an unused name goes last. */
  lemma AppendOrdered<D>(items: seq<Item<D>>, item: Item<D>)
    requires Ordered(items) && !Named(items, item.id)
    requires forall i :: 0 <= i < |items| ==> items[i].created <= item.created
    ensures Ordered(items + [item])
  {
  }

  /** Every draw names a stored record. */
  ghost predicate AllUsed<D>(items: seq<Item<D>>, draws: seq<string>) {
    forall i :: 0 <= i < |draws| ==> Named(items, draws[i])
  }

  /** The first of the random draws that no stored record uses. */
  method FreshId<D>(items: seq<Item<D>>, draws: seq<string>) returns (id: Option<string>)
    ensures id.Some? ==> id.value in draws && !Named(items, id.value)
    ensures id.None? <==> AllUsed(items, draws)
  {
    var i := 0;
    while i < |draws|
      invariant 0 <= i <= |draws|
      invariant forall j :: 0 <= j < i ==> Named(items, draws[j])
    {
      if !Named(items, draws[i]) {
        return Some(draws[i]);
      }
      i := i + 1;
    }
    id := None;
  }

  method SumSizes<D>(items: seq<Item<D>>) returns (sum: nat)
    ensures sum == Total(items)
  {
    sum := 0;
    var i := |items|;
    while i > 0
      invariant 0 <= i <= |items| && sum == Total(items[i..])
    {
      i := i - 1;
      assert items[i..][1..] == items[i + 1..];
      sum := sum + items[i].size;
    }
    assert items[0..] == items;
  }
}

/** The bounded table of next-hop gradients, least recently used first. */
module Gradient {
  import opened Options
  import opened SpreadingFactor

  const TIMEOUT := 600_000
  const SEQ_HALF := 32768

  type Address = string

  datatype Source = Announce | Rrep | Rpl | Data

  datatype Entry = Entry(destination: Address, nextHop: Address, hops: int, seqNum: int, source: Source,
                         expires: int, link: Link)

  // ------------------------------------------------------------------
  // Ranking
  // ------------------------------------------------------------------

  function Priority(source: Source): int {
    if source.Data? then 0 else 1
  }

  /** Serial-number order of RFC 1982 on 16 bits. */
  predicate Before(a: int, b: int) {
    0 < (b - a) % 0x1_0000 < SEQ_HALF
  }

  /** The newcomer ranks at least as high: source, then freshness, then hops. */
  predicate AtLeast(new_: Entry, existing: Entry) {
    if Priority(new_.source) != Priority(existing.source) then Priority(new_.source) > Priority(existing.source)
    else if (new_.seqNum - existing.seqNum) % 0x1_0000 != 0 then !Before(new_.seqNum, existing.seqNum)
    else new_.hops <= existing.hops
  }

  predicate Expired(entry: Entry, now: Option<int>) {
    now.Some? && entry.expires <= now.value
  }

  /** An aged entry with a high number gives way to a low one. */
  predicate Wrapped(new_: Entry, existing: Entry, now: Option<int>) {
    && now.Some? && !Expired(existing, now)
    && now.value - (existing.expires - TIMEOUT) > TIMEOUT / 2
    && existing.seqNum > SEQ_HALF + SEQ_HALF / 2
    && new_.seqNum < SEQ_HALF / 2
  }

  predicate Replaces(new_: Entry, existing: Entry, now: Option<int>) {
    Expired(existing, now) || Wrapped(new_, existing, now) || AtLeast(new_, existing)
  }

  /** Of two entries at least one may replace the other; both may only when
      they tie, and numbers exactly half the range apart tie either way. */
  lemma SomeoneReplaces(a: Entry, b: Entry)
    ensures AtLeast(a, b) || AtLeast(b, a)
    ensures AtLeast(a, b) && AtLeast(b, a) <==>
      && Priority(a.source) == Priority(b.source)
      && var gap := (a.seqNum - b.seqNum) % 0x1_0000;
         gap == SEQ_HALF || (gap == 0 && a.hops == b.hops)
  {
    Opposite(a.seqNum, b.seqNum);
  }

  lemma Opposite(a: int, b: int)
    ensures (a - b) % 0x1_0000 == if (b - a) % 0x1_0000 == 0 then 0 else 0x1_0000 - (b - a) % 0x1_0000
  {
    var q, r := (b - a) / 0x1_0000, (b - a) % 0x1_0000;
    assert a - b == -q * 0x1_0000 - r;
    if r != 0 {
      assert a - b == (-q - 1) * 0x1_0000 + (0x1_0000 - r);
    }
  }

  // ------------------------------------------------------------------
  // The order of use
  // ------------------------------------------------------------------

  ghost predicate Distinct(entries: seq<Entry>) {
    forall i, j :: 0 <= i < j < |entries| ==> entries[i].destination != entries[j].destination
  }

  predicate Listed(entries: seq<Entry>, dest: Address) {
    exists i :: 0 <= i < |entries| && entries[i].destination == dest
  }

  /** When each destination was last used: earlier entries, earlier times. */
  ghost predicate Aged(entries: seq<Entry>, used: map<Address, nat>, tick: nat) {
    && (forall i :: 0 <= i < |entries| ==>
          entries[i].destination in used && used[entries[i].destination] < tick)
    && (forall i, j :: 0 <= i < j < |entries| ==>
          used[entries[i].destination] < used[entries[j].destination])
  }

  function Without(entries: seq<Entry>, i: nat): seq<Entry>
    requires i < |entries|
  {
    entries[..i] + entries[i + 1..]
  }

  /** Using an entry, unchanged or not, puts it behind all others. */
  lemma UseAged(entries: seq<Entry>, used: map<Address, nat>, tick: nat, i: nat, entry: Entry)
    requires Aged(entries, used, tick) && Distinct(entries) && i < |entries|
    requires entry.destination == entries[i].destination
    ensures var all := Without(entries, i) + [entry];
            Aged(all, used[entry.destination := tick], tick + 1) && Distinct(all)
  {
    var rest := Without(entries, i);
    assert forall j :: 0 <= j < |rest| ==> rest[j] == entries[if j < i then j else j + 1];
  }

  lemma AddAged(entries: seq<Entry>, used: map<Address, nat>, tick: nat, entry: Entry)
    requires Aged(entries, used, tick) && Distinct(entries) && !Listed(entries, entry.destination)
    ensures Aged(entries + [entry], used[entry.destination := tick], tick + 1) && Distinct(entries + [entry])
  {
  }

  lemma TailAged(entries: seq<Entry>, used: map<Address, nat>, tick: nat)
    requires Aged(entries, used, tick) && Distinct(entries) && entries != []
    ensures Aged(entries[1..], used, tick) && Distinct(entries[1..])
  {
    var rest := entries[1..];
    assert forall i :: 0 <= i < |rest| ==> rest[i] == entries[i + 1];
  }

  /** Entry i is the unexpired one of the destination. */
  predicate Current(entries: seq<Entry>, i: int, dest: Address, now: Option<int>) {
    0 <= i < |entries| && entries[i].destination == dest && !Expired(entries[i], now)
  }

  class GradientTable {
    const maxEntries: nat
    var entries: seq<Entry>
    /** When each destination was last used, counted in uses. */
    ghost var used: map<Address, nat>
    ghost var tick: nat

    ghost predicate Valid()
      reads this
    {
      && 0 < maxEntries && |entries| <= maxEntries
      && Distinct(entries)
      && Aged(entries, used, tick)
    }

    /** A capacity that is not positive is refused at creation. */
    constructor (capacity: nat)
      requires capacity > 0
      ensures Valid() && entries == [] && maxEntries == capacity
    {
      maxEntries, entries, used, tick := capacity, [], map[], 0;
    }

    method Find(dest: Address) returns (at: Option<nat>)
      ensures at.Some? <==> Listed(entries, dest)
      ensures at.Some? ==> at.value < |entries| && entries[at.value].destination == dest
    {
      var i := 0;
      while i < |entries|
        invariant 0 <= i <= |entries|
        invariant forall j :: 0 <= j < i ==> entries[j].destination != dest
      {
        if entries[i].destination == dest {
          return Some(i);
        }
        i := i + 1;
      }
      at := None;
    }

    method Use(i: nat, entry: Entry)
      requires Valid() && i < |entries| && entry.destination == entries[i].destination
      modifies this`entries, this`used, this`tick
      ensures Valid() && entries == Without(old(entries), i) + [entry]
      ensures tick == old(tick) + 1 && used == old(used)[entry.destination := old(tick)]
    {
      UseAged(entries, used, tick, i, entry);
      entries := Without(entries, i) + [entry];
      used := used[entry.destination := tick];
      tick := tick + 1;
    }

    /** The unexpired entry of the destination, now the last used. */
    method Lookup(dest: Address, now: Option<int>) returns (found: Option<Entry>)
      requires Valid()
      modifies this`entries, this`used, this`tick
      ensures Valid()
      ensures found.Some? <==> exists i :: Current(old(entries), i, dest, now)
      ensures found.None? ==> entries == old(entries) && used == old(used)
      ensures found.Some? ==>
        && found.value.destination == dest && found.value in old(entries)
        && entries != [] && entries[|entries| - 1] == found.value
        && multiset(entries) == multiset(old(entries))
        && used == old(used)[dest := old(tick)]
    {
      var at := Find(dest);
      if at.None? || Expired(entries[at.value], now) {
        return None;
      }
      assert Current(entries, at.value, dest, now);
      found := Some(entries[at.value]);
      MovedToEnd(entries, at.value);
      Use(at.value, entries[at.value]);
    }

    /** Refreshing keeps what is known of the link. A newcomer to a full table
        displaces the entry unused for longest, and nothing else. */
    method Update(entry: Entry, now: Option<int>) returns (changed: bool)
      requires Valid()
      modifies this`entries, this`used, this`tick
      ensures Valid()
      ensures changed <==>
        forall i :: 0 <= i < |old(entries)| && old(entries)[i].destination == entry.destination ==>
          Replaces(entry, old(entries)[i], now)
      ensures !changed ==> entries == old(entries) && used == old(used)
      ensures changed ==>
        && used == old(used)[entry.destination := old(tick)]
        && entries != []
        && var last := entries[|entries| - 1];
           && last == entry.(link := last.link)
           && (forall e :: e in old(entries) && e.destination == entry.destination ==> last.link == e.link)
           && (!Listed(old(entries), entry.destination) ==> last.link == entry.link)
      ensures changed && (Listed(old(entries), entry.destination) || |old(entries)| < maxEntries) ==>
        forall e :: e in old(entries) && e.destination != entry.destination ==> e in entries
      ensures changed && !Listed(old(entries), entry.destination) && |old(entries)| == maxEntries ==>
        && entries == old(entries)[1..] + [entry]
        && forall e :: e in old(entries)[1..] ==> old(used)[old(entries)[0].destination] < old(used)[e.destination]
    {
      var at := Find(entry.destination);
      if at.Some? {
        changed := Replaces(entry, entries[at.value], now);
        if changed {
          RestStays(entries, at.value);
          Use(at.value, entry.(link := entries[at.value].link));
        }
      } else {
        Insert(entry);
        changed := true;
      }
    }

    method Insert(entry: Entry)
      requires Valid() && !Listed(entries, entry.destination)
      modifies this`entries, this`used, this`tick
      ensures Valid() && used == old(used)[entry.destination := old(tick)]
      ensures entries == (if |old(entries)| == maxEntries then old(entries)[1..] else old(entries)) + [entry]
    {
      AddAged(entries, used, tick, entry);
      entries := entries + [entry];
      used := used[entry.destination := tick];
      tick := tick + 1;
      ghost var all := entries;
      while |entries| > maxEntries
        invariant Aged(entries, used, tick) && Distinct(entries)
        invariant entries == all || (|all| == maxEntries + 1 && entries == all[1..])
        modifies this`entries
        decreases |entries|
      {
        TailAged(entries, used, tick);
        entries := entries[1..];
      }
    }

    /** A sample advances the link of an unexpired entry and nothing else. */
    method SfUpdate(neighbor: Address, snr: int, now: Option<int>)
      requires Valid()
      modifies this`entries, this`used, this`tick
      ensures Valid()
      ensures (forall i :: !Current(old(entries), i, neighbor, now)) ==> entries == old(entries)
      ensures forall i :: Current(old(entries), i, neighbor, now) ==>
        var e := old(entries)[i];
        entries == Without(old(entries), i) + [e.(link := Sample(e.link, snr))]
    {
      var at := Find(neighbor);
      if at.None? || Expired(entries[at.value], now) {
        return;
      }
      assert Current(entries, at.value, neighbor, now);
      var e := entries[at.value];
      Use(at.value, e.(link := Sample(e.link, snr)));
    }

    /** A selection is in range, is remembered, and touches nothing else. */
    method SfSelect(neighbor: Address, load: Load, now: Option<int>) returns (r: Option<(int, bool)>)
      requires Valid()
      modifies this`entries, this`used, this`tick
      ensures Valid()
      ensures r.Some? <==> exists i :: Current(old(entries), i, neighbor, now)
      ensures r.None? ==> entries == old(entries)
      ensures r.Some? ==> InRange(r.value.0)
      ensures forall i :: Current(old(entries), i, neighbor, now) ==>
        var e := old(entries)[i];
        && r == Some((Select(Start(e.link.sf), e.link, load), TxAllowed(load)))
        && entries == Without(old(entries), i) + [e.(link := e.link.(sf := Some(r.value.0)))]
    {
      var at := Find(neighbor);
      if at.None? || Expired(entries[at.value], now) {
        return None;
      }
      assert Current(entries, at.value, neighbor, now);
      var e := entries[at.value];
      var sf := Select(Start(e.link.sf), e.link, load);
      SelectInRange(Start(e.link.sf), e.link, load);
      Use(at.value, e.(link := e.link.(sf := Some(sf))));
      r := Some((sf, TxAllowed(load)));
    }
  }

  lemma MovedToEnd(entries: seq<Entry>, i: nat)
    requires i < |entries|
    ensures multiset(Without(entries, i) + [entries[i]]) == multiset(entries)
  {
    assert entries == entries[..i] + [entries[i]] + entries[i + 1..];
  }

  lemma RestStays(entries: seq<Entry>, i: nat)
    requires i < |entries|
    ensures forall e :: e in entries && e != entries[i] ==> e in Without(entries, i)
  {
    forall e | e in entries && e != entries[i]
      ensures e in Without(entries, i)
    {
      var j :| 0 <= j < |entries| && entries[j] == e;
      assert j < i ==> entries[..i][j] == e;
      assert j > i ==> entries[i + 1..][j - i - 1] == e;
    }
  }
}

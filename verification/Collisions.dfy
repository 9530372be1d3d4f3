/** The address-collision table: which keys were lately authenticated for an
    address, on a bounded table that survives restarts. */
module Collisions {
  import opened Addresses
  import opened Options
  import opened Ordering
  import opened Sets

  const LIFETIME := 1200
  const MAX_SECONDS := 0xFFFF_FFFF_FFFF_FFFF

  const KEY_SIZE := 32
  const SNAPSHOT_VERSION := 1
  const SOURCES := {"link_signature", "oscore", "tofu"}

  /** A public key. */
  type Key = seq<nat>

  type Bucket = map<Key, nat>
  type Claims = map<Address, Bucket>

  datatype Status = New | Idempotent | Collision

  datatype Observation =
    | Accepted(status: Status, keys: seq<Key>, expires: nat)
    | Malformed
    | BadTime
    | NoCapacity

  // ------------------------------------------------------------------
  // Expiry
  // ------------------------------------------------------------------

  function ActiveBucket(b: Bucket, now: nat): Bucket {
    map k | k in b && b[k] > now :: b[k]
  }

  function Active(c: Claims, now: nat): Claims {
    map a | a in c && ActiveBucket(c[a], now) != map[] :: ActiveBucket(c[a], now)
  }

  predicate Has(c: Claims, a: Address, k: Key) {
    a in c && k in c[a]
  }

  function At(c: Claims, a: Address): Bucket {
    if a in c then c[a] else map[]
  }

  ghost predicate NoEmpty(c: Claims) {
    forall a :: a in c ==> c[a] != map[]
  }

  lemma ActiveHas(c: Claims, now: nat, a: Address, k: Key)
    ensures Has(Active(c, now), a, k) <==> Has(c, a, k) && c[a][k] > now
    ensures Has(Active(c, now), a, k) ==> Active(c, now)[a][k] == c[a][k]
  {
    if Has(c, a, k) && c[a][k] > now {
      assert k in ActiveBucket(c[a], now);
    }
  }

  lemma ActiveSmaller(c: Claims, now: nat)
    ensures NoEmpty(Active(c, now)) && |Active(c, now)| <= |c|
    ensures forall a :: a in Active(c, now) ==> a in c && |Active(c, now)[a]| <= |c[a]|
  {
    var active := Active(c, now);
    SubmapSize(active, c);
    forall a | a in active
      ensures a in c && |active[a]| <= |c[a]|
    {
      SubmapSize(active[a], c[a]);
    }
  }

  /** Expiring twice is expiring at the later time. */
  lemma ActiveTwice(c: Claims, t: nat, now: nat)
    requires t <= now
    ensures Active(Active(c, t), now) == Active(c, now)
  {
    var once := Active(c, t);
    forall a | a in c
      ensures At(Active(once, now), a) == At(Active(c, now), a)
      ensures a in Active(once, now) <==> a in Active(c, now)
    {
      assert ActiveBucket(At(once, a), now) == ActiveBucket(c[a], now);
    }
  }

  // ------------------------------------------------------------------
  // Evidence: every observation ever accepted
  // ------------------------------------------------------------------

  datatype Claim = Claim(address: Address, key: Key, time: nat)

  /** Some accepted observation of the pair is less than 1200 seconds old. */
  ghost predicate Live(evidence: set<Claim>, a: Address, k: Key, now: nat) {
    exists t: nat :: Claim(a, k, t) in evidence && now < t + LIFETIME
  }

  ghost predicate Known(evidence: set<Claim>, a: Address, now: nat) {
    exists k :: Live(evidence, a, k, now)
  }

  /** The table holds exactly the live evidence, each pair at its newest expiry. */
  ghost predicate Reflects(c: Claims, evidence: set<Claim>, last: nat) {
    && (forall o :: o in evidence ==> o.time <= last)
    && (forall o :: o in evidence && last < o.time + LIFETIME ==>
          Has(c, o.address, o.key) && o.time + LIFETIME <= c[o.address][o.key])
    && (forall a, k :: Has(c, a, k) ==>
          && LIFETIME <= c[a][k] <= MAX_SECONDS && Claim(a, k, c[a][k] - LIFETIME) in evidence
          && Normal(a) && |k| == KEY_SIZE)
  }

  lemma ActiveReflects(c: Claims, evidence: set<Claim>, last: nat, now: nat)
    requires Reflects(c, evidence, last) && last <= now
    ensures Reflects(Active(c, now), evidence, now)
    ensures forall a, k :: Has(Active(c, now), a, k) <==> Live(evidence, a, k, now)
  {
    var active := Active(c, now);
    forall a, k
      ensures Has(active, a, k) <==> Live(evidence, a, k, now)
      ensures Has(active, a, k) ==>
        && LIFETIME <= active[a][k] <= MAX_SECONDS && Claim(a, k, active[a][k] - LIFETIME) in evidence
        && Normal(a) && |k| == KEY_SIZE
    {
      ActiveHas(c, now, a, k);
      if Live(evidence, a, k, now) {
        var t: nat :| Claim(a, k, t) in evidence && now < t + LIFETIME;
        assert Has(c, a, k);
      }
    }
    forall o | o in evidence && now < o.time + LIFETIME
      ensures Has(active, o.address, o.key) && o.time + LIFETIME <= active[o.address][o.key]
    {
      ActiveHas(c, now, o.address, o.key);
    }
  }

  /** Recording a claim. */
  function Put(c: Claims, a: Address, k: Key, expires: nat): Claims {
    c[a := At(c, a)[k := expires]]
  }

  lemma PutHas(c: Claims, a: Address, k: Key, expires: nat, a': Address, k': Key)
    ensures Has(Put(c, a, k, expires), a', k') <==> (a' == a && k' == k) || Has(c, a', k')
    ensures Has(Put(c, a, k, expires), a', k') ==>
      Put(c, a, k, expires)[a'][k'] == if a' == a && k' == k then expires else c[a'][k']
  {
  }

  lemma PutKeys(c: Claims, a: Address, k: Key, expires: nat)
    ensures a in Put(c, a, k, expires) && Put(c, a, k, expires)[a].Keys == At(c, a).Keys + {k}
  {
  }

  lemma PutReflects(c: Claims, evidence: set<Claim>, a: Address, k: Key, now: nat)
    requires Reflects(c, evidence, now) && now + LIFETIME <= MAX_SECONDS && Normal(a) && |k| == KEY_SIZE
    ensures Reflects(Put(c, a, k, now + LIFETIME), evidence + {Claim(a, k, now)}, now)
  {
    hide Put;
    var put, evidence' := Put(c, a, k, now + LIFETIME), evidence + {Claim(a, k, now)};
    forall o | o in evidence' && now < o.time + LIFETIME
      ensures Has(put, o.address, o.key) && o.time + LIFETIME <= put[o.address][o.key]
    {
      PutHas(c, a, k, now + LIFETIME, o.address, o.key);
    }
    forall a', k' | Has(put, a', k')
      ensures LIFETIME <= put[a'][k'] <= MAX_SECONDS && Claim(a', k', put[a'][k'] - LIFETIME) in evidence'
      ensures Normal(a') && |k'| == KEY_SIZE
    {
      PutHas(c, a, k, now + LIFETIME, a', k');
    }
  }

  // ------------------------------------------------------------------
  // The detector
  // ------------------------------------------------------------------

  ghost predicate Fits(c: Claims, maxAddresses: nat, maxKeys: nat) {
    && NoEmpty(c)
    && |c| <= maxAddresses
    && forall a :: a in c ==> |c[a]| <= maxKeys
  }

  lemma ActiveFits(c: Claims, now: nat, maxAddresses: nat, maxKeys: nat)
    requires Fits(c, maxAddresses, maxKeys)
    ensures Fits(Active(c, now), maxAddresses, maxKeys)
  {
    ActiveSmaller(c, now);
  }

  lemma PutFits(c: Claims, a: Address, k: Key, expires: nat, maxAddresses: nat, maxKeys: nat)
    requires Fits(c, maxAddresses, maxKeys)
    requires a in c || |c| < maxAddresses
    requires k in At(c, a) || |At(c, a)| < maxKeys
    ensures Fits(Put(c, a, k, expires), maxAddresses, maxKeys)
  {
    InsertSize(c, a, At(c, a)[k := expires]);
    InsertSize(At(c, a), k, expires);
    assert k in Put(c, a, k, expires)[a];
  }

  lemma InsertSize<K, V>(m: map<K, V>, k: K, v: V)
    ensures |m[k := v]| == if k in m then |m| else |m| + 1
  {
    assert m[k := v].Keys == m.Keys + {k};
    assert |m[k := v]| == |m[k := v].Keys| && |m| == |m.Keys|;
  }

  // ------------------------------------------------------------------
  // One call on values
  // ------------------------------------------------------------------

  datatype Table = Table(maxAddresses: nat, maxKeys: nat, claims: Claims, last: Option<nat>)

  function Latest(last: Option<nat>): nat {
    if last.Some? then last.value else 0
  }

  /** Time is an unsigned 64-bit count of seconds and never goes back. */
  predicate GoodTime(last: Option<nat>, now: int) {
    0 <= now <= MAX_SECONDS && Latest(last) <= now
  }

  function Advanced(t: Table, now: nat): Table {
    t.(claims := Active(t.claims, now), last := Some(now))
  }

  /** Live evidence leaves no room for the pair. */
  predicate Full(c: Claims, a: Address, k: Key, now: nat, maxAddresses: nat, maxKeys: nat) {
    var active := Active(c, now);
    (a !in active && |active| >= maxAddresses) || (k !in At(active, a) && |At(active, a)| >= maxKeys)
  }

  /** A tracked address, a whole key and a source that authenticates. */
  predicate WellFormed(address: Option<Address>, k: Key, source: string) {
    address.Some? && |k| == KEY_SIZE && source in SOURCES
  }

  ghost function Observed(t: Table, address: Option<Address>, k: Key, source: string, now: int)
    : (Table, Observation)
  {
    if !WellFormed(address, k, source) then (t, Malformed)
    else if !GoodTime(t.last, now) || now > MAX_SECONDS - LIFETIME then (t, BadTime)
    else if Full(t.claims, address.value, k, now, t.maxAddresses, t.maxKeys) then (t, NoCapacity)
    else
      var a := address.value;
      var before := At(Active(t.claims, now), a).Keys;
      var keys := before + {k};
      var status := if k in before then Idempotent else if |keys| > 1 then Collision else New;
      var u := Advanced(t, now);
      (u.(claims := Put(u.claims, a, k, now + LIFETIME)), Accepted(status, Sorted(keys), now + LIFETIME))
  }

  ghost function Queried(t: Table, address: Option<Address>, now: int): (Table, Option<seq<Key>>) {
    if address.None? || !GoodTime(t.last, now) then (t, None)
    else (Advanced(t, now), Some(Sorted(At(Active(t.claims, now), address.value).Keys)))
  }

  function Saved(t: Table, now: int): (Table, Option<Claims>) {
    if !GoodTime(t.last, now) then (t, None)
    else (Advanced(t, now), Some(Active(t.claims, now)))
  }

  class Detector {
    const maxAddresses: nat
    const maxKeys: nat
    var claims: Claims
    var last: Option<nat>
    ghost var evidence: set<Claim>

    ghost function State(): Table
      reads this`claims, this`last
    {
      Table(maxAddresses, maxKeys, claims, last)
    }

    /** Both capacities hold in every state. */
    ghost predicate Valid()
      reads this
    {
      && Fits(claims, maxAddresses, maxKeys)
      && Reflects(claims, evidence, Latest(last))
    }

    /** Capacities that are not positive are refused at creation. */
    constructor (addresses: nat, keys: nat)
      requires addresses > 0 && keys > 0
      ensures Valid() && claims == map[] && last == None && evidence == {}
      ensures maxAddresses == addresses && maxKeys == keys
    {
      maxAddresses, maxKeys := addresses, keys;
      claims, last, evidence := map[], None, {};
    }

    method Purge(now: nat)
      modifies this`claims
      ensures claims == Active(old(claims), now)
    {
      hide ActiveBucket;
      var pending := claims.Keys;
      while pending != {}
        invariant pending <= claims.Keys <= old(claims).Keys
        invariant forall a :: a in pending ==> claims[a] == old(claims)[a]
        invariant forall a :: a in old(claims) && a !in pending ==>
          (a in claims <==> ActiveBucket(old(claims)[a], now) != map[])
        invariant forall a :: a in claims && a !in pending ==> claims[a] == ActiveBucket(old(claims)[a], now)
        decreases pending
      {
        var a :| a in pending;
        var bucket := PurgeBucket(claims[a], now);
        if bucket == map[] {
          claims := claims - {a};
        } else {
          claims := claims[a := bucket];
        }
        pending := pending - {a};
      }
    }

    /** Moving to a valid later time keeps everything and forgets the expired. */
    method Advance(now: nat)
      requires Valid() && GoodTime(last, now)
      modifies this`claims, this`last
      ensures Valid() && State() == Advanced(old(State()), now)
      ensures forall a, k :: Has(claims, a, k) <==> Live(evidence, a, k, now)
    {
      hide Has, Active, Live;
      ActiveFits(claims, now, maxAddresses, maxKeys);
      ActiveReflects(claims, evidence, Latest(last), now);
      last := Some(now);
      Purge(now);
    }

    /** An observation is accepted unless it is malformed, its time is bad, or a
        capacity is used up by live evidence; a rejected one changes nothing.
        What an accepted one answers follows from the evidence alone. */
    method Observe(address: Parsed, link: Option<string>, k: Key, source: string, now: int)
      returns (r: Observation)
      requires Valid()
      modifies this
      ensures Valid()
      ensures (State(), r) == Observed(old(State()), Normalize(address, link), k, source, now)
      ensures !r.Accepted? ==> State() == old(State()) && evidence == old(evidence)
      ensures r.Accepted? ==>
        && var a := Normalize(address, link).value;
           && evidence == old(evidence) + {Claim(a, k, now)}
           && Ascending(r.keys) && (forall k' :: k' in r.keys <==> Live(evidence, a, k', now))
           && (r.status == Idempotent <==> Live(old(evidence), a, k, now))
           && (r.status == Collision <==> !Live(old(evidence), a, k, now) && Known(old(evidence), a, now))
    {
      hide Normalize, Normal;
      var normal := Normalize(address, link);
      if !WellFormed(normal, k, source) {
        return Malformed;
      }
      if !GoodTime(last, now) || now > MAX_SECONDS - LIFETIME {
        return BadTime;
      }
      hide Active, At, Reflects, Fits, Live, Put, Has, Known;
      NormalExactly(normal.value);
      var active := Active(claims, now);
      var bucket := At(active, normal.value);
      if normal.value !in active && |active| >= maxAddresses {
        return NoCapacity;
      }
      if k !in bucket && |bucket| >= maxKeys {
        return NoCapacity;
      }
      r := Accept(normal.value, k, source, now, k in bucket);
    }

    method Accept(a: Address, k: Key, source: string, now: nat, existing: bool) returns (r: Observation)
      requires Normal(a) && WellFormed(Some(a), k, source)
      requires Valid() && GoodTime(last, now) && now + LIFETIME <= MAX_SECONDS
      requires !Full(claims, a, k, now, maxAddresses, maxKeys)
      requires existing == (k in At(Active(claims, now), a))
      modifies this
      ensures Valid() && r.Accepted? && evidence == old(evidence) + {Claim(a, k, now)}
      ensures (State(), r) == Observed(old(State()), Some(a), k, source, now)
      ensures Ascending(r.keys) && forall k' :: k' in r.keys <==> Live(evidence, a, k', now)
      ensures r.status == Idempotent <==> Live(old(evidence), a, k, now)
      ensures r.status == Collision <==> !Live(old(evidence), a, k, now) && Known(old(evidence), a, now)
    {
      hide Active, At, Reflects, Fits, Live, Put, Has, Known, Normal, Sorted;
      Advance(now);
      ghost var active := claims;
      PutKeys(active, a, k, now + LIFETIME);
      Store(a, k, now);
      var keys := claims[a].Keys;
      StatusCases(active, evidence, old(evidence), a, k, now, keys);
      var listed := Sort(keys);
      r := Accepted(if existing then Idempotent else if |keys| > 1 then Collision else New, listed, now + LIFETIME);
    }

    method Store(a: Address, k: Key, now: nat)
      requires Valid() && last == Some(now) && now + LIFETIME <= MAX_SECONDS && Normal(a) && |k| == KEY_SIZE
      requires a in claims || |claims| < maxAddresses
      requires k in At(claims, a) || |At(claims, a)| < maxKeys
      modifies this`claims, this`evidence
      ensures Valid() && claims == Put(old(claims), a, k, now + LIFETIME)
      ensures evidence == old(evidence) + {Claim(a, k, now)}
    {
      hide Put, Fits, Reflects;
      PutFits(claims, a, k, now + LIFETIME, maxAddresses, maxKeys);
      PutReflects(claims, evidence, a, k, now);
      claims := Put(claims, a, k, now + LIFETIME);
      evidence := evidence + {Claim(a, k, now)};
    }

    /** The live keys of an address in ascending order, and nothing else. */
    method KeysFor(address: Parsed, link: Option<string>, now: int) returns (keys: Option<seq<Key>>)
      requires Valid()
      modifies this`claims, this`last
      ensures Valid() && (keys.Some? <==> Normalize(address, link).Some? && GoodTime(old(last), now))
      ensures (State(), keys) == Queried(old(State()), Normalize(address, link), now)
      ensures keys.Some? ==>
        && var a := Normalize(address, link).value;
           Ascending(keys.value) && forall k :: k in keys.value <==> Live(evidence, a, k, now)
    {
      hide Normalize, Sorted;
      var normal := Normalize(address, link);
      if normal.None? || !GoodTime(last, now) {
        return None;
      }
      Advance(now);
      var bucket := At(claims, normal.value).Keys;
      var listed := Sort(bucket);
      keys := Some(listed);
      assert forall k :: k in bucket <==> Has(claims, normal.value, k);
    }

    /** The live claims, each once, in order. */
    method Snapshot(now: int) returns (document: Option<Document>)
      requires Valid()
      modifies this`claims, this`last
      ensures Valid() && (document.Some? <==> GoodTime(old(last), now))
      ensures State() == Saved(old(State()), now).0
      ensures document.Some? ==>
        && document.value.version == SNAPSHOT_VERSION && document.value.last == now
        && document.value.maxAddresses == maxAddresses && document.value.maxKeys == maxKeys
        && Lists(document.value.rows, claims) && RowsAscending(document.value.rows)
    {
      if !GoodTime(last, now) {
        return None;
      }
      Advance(now);
      AllNormal(claims, evidence, now);
      var rows := Rows(claims);
      document := Some(Document(SNAPSHOT_VERSION, now, maxAddresses, maxKeys, rows));
    }

    /** A detector restarted from a snapshot. */
    constructor Restore(addresses: nat, keys: nat, restored: Claims, now: nat, ghost known: set<Claim>)
      requires addresses > 0 && keys > 0
      ensures maxAddresses == addresses && maxKeys == keys
      ensures claims == restored && last == Some(now) && evidence == known
    {
      maxAddresses, maxKeys := addresses, keys;
      claims, last, evidence := restored, Some(now), known;
    }
  }

  method PurgeBucket(bucket: Bucket, now: nat) returns (kept: Bucket)
    ensures kept == ActiveBucket(bucket, now)
  {
    kept := bucket;
    var pending := bucket.Keys;
    while pending != {}
      invariant pending <= kept.Keys <= bucket.Keys
      invariant forall k :: k in kept ==> kept[k] == bucket[k]
      invariant forall k :: k in bucket && k !in pending ==> (k in kept <==> bucket[k] > now)
      decreases pending
    {
      var k :| k in pending;
      if kept[k] <= now {
        kept := kept - {k};
      }
      pending := pending - {k};
    }
  }

  /** After the key is stored, another key is live exactly when two are listed. */
  lemma StatusCases(active: Claims, evidence: set<Claim>, before: set<Claim>, a: Address, k: Key, now: nat,
                    keys: set<Key>)
    requires evidence == before + {Claim(a, k, now)}
    requires forall a, k :: Has(active, a, k) <==> Live(before, a, k, now)
    requires keys == At(active, a).Keys + {k}
    ensures forall k' :: k' in keys <==> Live(evidence, a, k', now)
    ensures k in At(active, a) <==> Live(before, a, k, now)
    ensures k !in At(active, a) ==> (|keys| > 1 <==> Known(before, a, now))
  {
    forall k'
      ensures k' in keys <==> Live(evidence, a, k', now)
    {
      assert k' in At(active, a) <==> Has(active, a, k');
      if k' == k {
        assert Claim(a, k, now) in evidence;
      } else if Live(evidence, a, k', now) {
        var t: nat :| Claim(a, k', t) in evidence && now < t + LIFETIME;
        assert Claim(a, k', t) in before;
      }
    }
    var others := At(active, a).Keys;
    assert forall k' :: k' in others <==> Has(active, a, k');
    if k !in others {
      assert |keys| == |others| + 1;
      if others != {} {
        var k' :| k' in others;
        assert Live(before, a, k', now);
      }
    }
  }

  // ------------------------------------------------------------------
  // Snapshots
  // ------------------------------------------------------------------

  datatype Row = Row(address: Address, key: Key, expires: nat)

  datatype Document = Document(version: int, last: nat, maxAddresses: nat, maxKeys: nat, rows: seq<Row>)

  ghost predicate NoDuplicates(rows: seq<Row>) {
    forall i, j :: 0 <= i < j < |rows| ==> rows[i].address != rows[j].address || rows[i].key != rows[j].key
  }

  /** Every claim is one row and every row is one claim. */
  ghost predicate Lists(rows: seq<Row>, c: Claims) {
    && NoDuplicates(rows)
    && (forall i :: 0 <= i < |rows| ==> Holds(c, rows[i]))
    && (forall a, k :: Has(c, a, k) ==> Row(a, k, c[a][k]) in rows)
  }

  predicate Holds(c: Claims, row: Row) {
    Has(c, row.address, row.key) && c[row.address][row.key] == row.expires
  }

  predicate RowLess(r: Row, s: Row) {
    Less(Rank(r.address), Rank(s.address)) || (r.address == s.address && Less(r.key, s.key))
  }

  ghost predicate RowsAscending(rows: seq<Row>) {
    forall i, j :: 0 <= i < j < |rows| ==> RowLess(rows[i], rows[j])
  }

  ghost predicate NormalTable(c: Claims) {
    forall a :: a in c ==> Normal(a)
  }

  lemma AllNormal(c: Claims, evidence: set<Claim>, now: nat)
    requires Reflects(c, evidence, now) && NoEmpty(c)
    ensures NormalTable(c)
  {
    forall a | a in c
      ensures Normal(a)
    {
      var k :| k in c[a];
      assert Has(c, a, k);
    }
  }

  /** The addresses of a table by rank. */
  function ByRank(c: Claims): (m: map<seq<nat>, Address>)
    requires NormalTable(c)
    ensures forall r :: r in m ==> m[r] in c && Rank(m[r]) == r
    ensures forall a :: a in c ==> Rank(a) in m && m[Rank(a)] == a
  {
    RanksDistinct(c);
    map a | a in c :: Rank(a) := a
  }

  lemma RanksDistinct(c: Claims)
    requires NormalTable(c)
    ensures forall a, b :: a in c && b in c && Rank(a) == Rank(b) ==> a == b
  {
    hide Rank;
    forall a, b | a in c && b in c && Rank(a) == Rank(b)
      ensures a == b
    {
      RankInjective(a, b);
    }
  }

  ghost predicate InOrder(order: seq<Address>) {
    forall i, j :: 0 <= i < j < |order| ==> Less(Rank(order[i]), Rank(order[j]))
  }

  /** The addresses of a table in order. */
  method SortedAddresses(c: Claims) returns (order: seq<Address>)
    requires NormalTable(c)
    ensures (forall a :: a in order <==> a in c) && InOrder(order)
  {
    hide NormalTable, Rank, ByRank, Less, Sorted;
    var byRank := ByRank(c);
    var ranks := Sort(byRank.Keys);
    assert forall i :: 0 <= i < |ranks| ==> ranks[i] in ranks && ranks[i] in byRank;
    order := seq(|ranks|, i requires 0 <= i < |ranks| => byRank[ranks[i]]);
    forall a | a in c
      ensures a in order
    {
      assert Rank(a) in ranks;
      var i :| 0 <= i < |ranks| && ranks[i] == Rank(a);
      assert order[i] == a;
    }
  }

  method Rows(c: Claims) returns (rows: seq<Row>)
    requires NormalTable(c)
    ensures Lists(rows, c) && RowsAscending(rows)
  {
    hide Lists, NoDuplicates, Rank, Less, NormalTable, RowsAscending;
    var order := SortedAddresses(c);
    rows := [];
    NoRows(Within(c, {}));
    assert RowsAscending([]) && Below(rows, order, 0) by {
      NothingBelow(order);
    }
    for i := 0 to |order|
      invariant RowsAscending(rows) && Below(rows, order, i)
      invariant Lists(rows, Within(c, Firsts(order, i)))
    {
      var a := order[i];
      NotYet(order, i);
      var more := BucketRows(a, c[a]);
      ListsMore(rows, more, c, Firsts(order, i), a);
      OrderMore(rows, more, order, i);
      rows := rows + more;
      assert Firsts(order, i + 1) == Firsts(order, i) + {a};
    }
    assert Within(c, Firsts(order, |order|)) == c;
  }

  ghost function Firsts(order: seq<Address>, n: nat): set<Address>
    requires n <= |order|
  {
    set i | 0 <= i < n :: order[i]
  }

  /** All rows are of the first n addresses. */
  ghost predicate Below(rows: seq<Row>, order: seq<Address>, n: nat)
    requires n <= |order|
  {
    forall k :: 0 <= k < |rows| ==> rows[k].address in Firsts(order, n)
  }

  lemma NothingBelow(order: seq<Address>)
    ensures RowsAscending([]) && Below([], order, 0) && Firsts(order, 0) == {}
  {
  }

  lemma NotYet(order: seq<Address>, i: nat)
    requires i < |order| && InOrder(order)
    ensures order[i] !in Firsts(order, i)
  {
    forall j | 0 <= j < i
      ensures order[j] != order[i]
    {
      Trichotomy(Rank(order[j]), Rank(order[i]));
    }
  }

  lemma OrderMore(rows: seq<Row>, more: seq<Row>, order: seq<Address>, n: nat)
    requires n < |order| && InOrder(order)
    requires RowsAscending(rows) && Below(rows, order, n) && RowsAscending(more)
    requires forall k :: 0 <= k < |more| ==> more[k].address == order[n]
    ensures RowsAscending(rows + more) && Below(rows + more, order, n + 1)
  {
    hide Rank, Less;
    var all := rows + more;
    forall i, j | 0 <= i < j < |all|
      ensures RowLess(all[i], all[j])
    {
      if i < |rows| <= j {
        var k :| 0 <= k < n && order[k] == rows[i].address;
        assert all[j] == more[j - |rows|];
      }
    }
    assert order[n] in Firsts(order, n + 1);
    assert Firsts(order, n) <= Firsts(order, n + 1);
  }

  /** The part of the table for some of the addresses. */
  function Within(c: Claims, some: set<Address>): Claims {
    map a | a in c && a in some :: c[a]
  }

  lemma NoRows(c: Claims)
    requires c == map[]
    ensures Lists([], c)
  {
  }

  ghost predicate BucketListed(rows: seq<Row>, a: Address, bucket: Bucket) {
    && NoDuplicates(rows)
    && (forall i :: 0 <= i < |rows| ==>
          rows[i].address == a && rows[i].key in bucket && rows[i].expires == bucket[rows[i].key])
    && (forall k :: k in bucket ==> Row(a, k, bucket[k]) in rows)
  }

  method BucketRows(a: Address, bucket: Bucket) returns (rows: seq<Row>)
    ensures BucketListed(rows, a, bucket) && RowsAscending(rows)
  {
    hide Less, Rank, Sorted;
    var keys := Sort(bucket.Keys);
    assert forall i :: 0 <= i < |keys| ==> keys[i] in keys && keys[i] in bucket;
    rows := seq(|keys|, i requires 0 <= i < |keys| => Row(a, keys[i], bucket[keys[i]]));
    forall i, j | 0 <= i < j < |rows|
      ensures RowLess(rows[i], rows[j]) && rows[i].key != rows[j].key
    {
      Trichotomy(keys[i], keys[j]);
    }
    forall k | k in bucket
      ensures Row(a, k, bucket[k]) in rows
    {
      var i :| 0 <= i < |keys| && keys[i] == k;
      assert rows[i] == Row(a, k, bucket[k]);
    }
  }

  lemma ListsMore(rows: seq<Row>, more: seq<Row>, c: Claims, some: set<Address>, a: Address)
    requires Lists(rows, Within(c, some)) && a in c && a !in some && BucketListed(more, a, c[a])
    ensures Lists(rows + more, Within(c, some + {a}))
  {
    var all, part, whole := rows + more, Within(c, some), Within(c, some + {a});
    forall i | 0 <= i < |all|
      ensures Holds(whole, all[i])
    {
      if i < |rows| {
        assert Holds(part, rows[i]);
      } else {
        assert all[i] == more[i - |rows|];
      }
    }
    forall i, j | 0 <= i < j < |all|
      ensures all[i].address != all[j].address || all[i].key != all[j].key
    {
      if i < |rows| <= j {
        assert Holds(part, rows[i]);
        assert all[j] == more[j - |rows|];
      }
    }
    forall b, k | Has(whole, b, k)
      ensures Row(b, k, whole[b][k]) in all
    {
      if b != a {
        assert Has(part, b, k);
      }
    }
  }

  /** Rows back into a table; a repeated pair is an error. */
  function Build(rows: seq<Row>): Option<Claims> {
    if rows == [] then Some(map[])
    else
      var before := Build(rows[..|rows| - 1]);
      var row := rows[|rows| - 1];
      if before.None? || Has(before.value, row.address, row.key) then None
      else Some(Put(before.value, row.address, row.key, row.expires))
  }

  lemma {:induction false} BuildLists(rows: seq<Row>)
    ensures Build(rows).Some? <==> NoDuplicates(rows)
    ensures Build(rows).Some? ==> Lists(rows, Build(rows).value) && NoEmpty(Build(rows).value)
  {
    if rows == [] {
      NoRows(map[]);
    } else {
      var n := |rows| - 1;
      BuildLists(rows[..n]);
      assert rows == rows[..n] + [rows[n]];
      BuildStep(rows[..n], rows[n]);
    }
  }

  lemma BuildStep(prefix: seq<Row>, row: Row)
    requires Build(prefix).Some? <==> NoDuplicates(prefix)
    requires Build(prefix).Some? ==> Lists(prefix, Build(prefix).value) && NoEmpty(Build(prefix).value)
    ensures var rows := prefix + [row];
            && (Build(rows).Some? <==> NoDuplicates(rows))
            && (Build(rows).Some? ==> Lists(rows, Build(rows).value) && NoEmpty(Build(rows).value))
  {
    hide Put, Lists;
    var rows := prefix + [row];
    assert rows[..|rows| - 1] == prefix && rows[|rows| - 1] == row;
    if Build(prefix).Some? {
      var c := Build(prefix).value;
      if Has(c, row.address, row.key) {
        Repeated(prefix, c, row);
      } else {
        ListsOne(prefix, c, row);
        ListsDistinct(rows, Put(c, row.address, row.key, row.expires));
      }
    } else {
      assert forall i :: 0 <= i < |prefix| ==> rows[i] == prefix[i];
    }
  }

  lemma ListsDistinct(rows: seq<Row>, c: Claims)
    requires Lists(rows, c)
    ensures NoDuplicates(rows)
  {
  }

  lemma Repeated(rows: seq<Row>, c: Claims, row: Row)
    requires Lists(rows, c) && Has(c, row.address, row.key)
    ensures !NoDuplicates(rows + [row])
  {
    var all := rows + [row];
    var i :| 0 <= i < |rows| && rows[i] == Row(row.address, row.key, c[row.address][row.key]);
    assert all[i] == rows[i] && all[|rows|] == row;
  }

  lemma ListsOne(rows: seq<Row>, c: Claims, row: Row)
    requires Lists(rows, c) && NoEmpty(c) && !Has(c, row.address, row.key)
    ensures var c' := Put(c, row.address, row.key, row.expires); Lists(rows + [row], c') && NoEmpty(c')
  {
    hide Put;
    var c', all := Put(c, row.address, row.key, row.expires), rows + [row];
    PutKeys(c, row.address, row.key, row.expires);
    forall i | 0 <= i < |all|
      ensures Holds(c', all[i])
    {
      PutHas(c, row.address, row.key, row.expires, all[i].address, all[i].key);
      if i < |rows| {
        assert Holds(c, rows[i]);
      }
    }
    forall a, k | Has(c', a, k)
      ensures Row(a, k, c'[a][k]) in all
    {
      PutHas(c, row.address, row.key, row.expires, a, k);
    }
    forall a | a in c'
      ensures c'[a] != map[]
    {
      if a != row.address {
        PutOther(c, row.address, row.key, row.expires, a);
      }
    }
    forall i | 0 <= i < |rows|
      ensures rows[i].address != row.address || rows[i].key != row.key
    {
      assert Holds(c, rows[i]);
    }
  }

  lemma PutOther(c: Claims, a: Address, k: Key, expires: nat, b: Address)
    requires a != b
    ensures b in Put(c, a, k, expires) <==> b in c
    ensures b in c ==> Put(c, a, k, expires)[b] == c[b]
  {
  }

  /** The address is tracked and of the kind the row says, the key whole, and
      the expiry in range. */
  predicate RowOk(row: Row) {
    && Normalize(Parsed(row.address.packed, None), row.address.scope) == Some(row.address)
    && |row.key| == KEY_SIZE && row.expires <= MAX_SECONDS
  }

  /** What a restart accepts, and the table it starts from. */
  function Restored(document: Document, now: int): Option<Claims> {
    if document.version != SNAPSHOT_VERSION || document.maxAddresses == 0 || document.maxKeys == 0 then None
    else if document.last > MAX_SECONDS || !(document.last <= now <= MAX_SECONDS) then None
    else if exists i :: 0 <= i < |document.rows| && !RowOk(document.rows[i]) then None
    else
      var c := Build(document.rows);
      if c.None? || |c.value| > document.maxAddresses
        || exists a :: a in c.value && |c.value[a]| > document.maxKeys then None
      else Some(Active(c.value, now))
  }

  /** The table is rebuilt row by row, checked, and expired. It reflects whatever
      evidence the saved table reflected. */
  method FromSnapshot(document: Document, now: int, ghost known: set<Claim>) returns (d: Option<Detector>)
    ensures d.Some? <==> Restored(document, now).Some?
    ensures d.Some? ==>
      && fresh(d.value) && d.value.claims == Restored(document, now).value && d.value.last == Some(now)
      && d.value.maxAddresses == document.maxAddresses && d.value.maxKeys == document.maxKeys
      && d.value.evidence == known
    ensures d.Some? && Reflects(Build(document.rows).value, known, document.last) ==> d.value.Valid()
  {
    if document.version != SNAPSHOT_VERSION || document.maxAddresses == 0 || document.maxKeys == 0 {
      return None;
    }
    if document.last > MAX_SECONDS || !(document.last <= now <= MAX_SECONDS) {
      return None;
    }
    var c := Rebuild(document.rows);
    if c.None? || |c.value| > document.maxAddresses || exists a :: a in c.value && |c.value[a]| > document.maxKeys {
      return None;
    }
    BuildLists(document.rows);
    ActiveFits(c.value, now, document.maxAddresses, document.maxKeys);
    if Reflects(c.value, known, document.last) {
      ActiveReflects(c.value, known, document.last, now);
    }
    var restored := new Detector.Restore(document.maxAddresses, document.maxKeys, c.value, now, known);
    restored.Purge(now);
    d := Some(restored);
  }

  lemma PrefixFails(rows: seq<Row>, n: nat)
    requires n <= |rows| && Build(rows[..n]).None?
    ensures Build(rows).None?
  {
    hide Build;
    BuildLists(rows[..n]);
    BuildLists(rows);
  }

  method Rebuild(rows: seq<Row>) returns (c: Option<Claims>)
    ensures c == if exists i :: 0 <= i < |rows| && !RowOk(rows[i]) then None else Build(rows)
  {
    hide Put;
    var table: Claims := map[];
    var i := 0;
    while i < |rows|
      invariant 0 <= i <= |rows| && Build(rows[..i]) == Some(table)
      invariant forall j :: 0 <= j < i ==> RowOk(rows[j])
    {
      var row := rows[i];
      assert rows[..i + 1][..i] == rows[..i];
      if !RowOk(row) {
        return None;
      }
      if Has(table, row.address, row.key) {
        PrefixFails(rows, i + 1);
        return None;
      }
      table := Put(table, row.address, row.key, row.expires);
      i := i + 1;
    }
    assert rows[..i] == rows;
    c := Some(table);
  }

  /** The same listing determines the same table. */
  lemma ListsUnique(rows: seq<Row>, c: Claims, d: Claims)
    requires Lists(rows, c) && Lists(rows, d) && NoEmpty(c) && NoEmpty(d)
    ensures c == d
  {
    hide Lists;
    SameTable(rows, c, d);
    SameTable(rows, d, c);
    SameBuckets(c, d);
    SameBuckets(d, c);
  }

  lemma SameBuckets(c: Claims, d: Claims)
    requires NoEmpty(c)
    requires forall a, k :: Has(c, a, k) ==> Has(d, a, k) && d[a][k] == c[a][k]
    requires forall a, k :: Has(d, a, k) ==> Has(c, a, k)
    ensures forall a :: a in c ==> a in d && c[a] == d[a]
  {
    forall a | a in c
      ensures a in d && c[a] == d[a]
    {
      var k :| k in c[a];
      assert Has(c, a, k);
      assert forall k :: k in d[a] ==> Has(d, a, k);
      assert forall k :: k in c[a] ==> Has(c, a, k);
    }
  }

  lemma SameTable(rows: seq<Row>, c: Claims, d: Claims)
    requires Lists(rows, c) && Lists(rows, d)
    ensures forall a, k :: Has(c, a, k) ==> Has(d, a, k) && d[a][k] == c[a][k]
  {
    forall a, k | Has(c, a, k)
      ensures Has(d, a, k) && d[a][k] == c[a][k]
    {
      var i :| 0 <= i < |rows| && rows[i] == Row(a, k, c[a][k]);
      assert Holds(d, rows[i]);
    }
  }

  /** Restarting from a snapshot at any later time gives the table the original
      would have at that time. */
  lemma RestartExact(before: Claims, evidence: set<Claim>, document: Document, now: nat)
    requires var c := Active(before, document.last);
             && Lists(document.rows, c)
             && Fits(c, document.maxAddresses, document.maxKeys)
             && Reflects(c, evidence, document.last)
    requires document.version == SNAPSHOT_VERSION && document.maxAddresses > 0 && document.maxKeys > 0
    requires document.last <= now <= MAX_SECONDS
    ensures Restored(document, now) == Some(Active(before, now))
    ensures Reflects(Build(document.rows).value, evidence, document.last)
  {
    hide Active;
    var c := Active(before, document.last);
    ActiveTwice(before, document.last, now);
    BuildLists(document.rows);
    ListsUnique(document.rows, Build(document.rows).value, c);
    forall i | 0 <= i < |document.rows|
      ensures RowOk(document.rows[i])
    {
      assert Holds(c, document.rows[i]);
      NormalExactly(document.rows[i].address);
    }
  }

  /** A table has only one listing in order, so a snapshot is determined. */
  lemma OneListing(a: seq<Row>, b: seq<Row>, c: Claims)
    requires Lists(a, c) && Lists(b, c) && RowsAscending(a) && RowsAscending(b) && NormalTable(c)
    ensures a == b
  {
    SameRows(a, b, c);
    SameRows(b, a, c);
    OneRowOrder(a, b);
  }

  lemma SameRows(a: seq<Row>, b: seq<Row>, c: Claims)
    requires Lists(a, c) && Lists(b, c)
    ensures forall r :: r in a ==> r in b
  {
    forall r | r in a
      ensures r in b
    {
      var i :| 0 <= i < |a| && a[i] == r;
      assert Holds(c, a[i]);
    }
  }

  lemma RowIrreflexive(r: Row, s: Row)
    requires RowLess(r, s)
    ensures r != s && !RowLess(s, r)
  {
    hide Less, Rank;
    Trichotomy(Rank(r.address), Rank(s.address));
    Trichotomy(r.key, s.key);
  }

  lemma {:induction false} OneRowOrder(a: seq<Row>, b: seq<Row>)
    requires RowsAscending(a) && RowsAscending(b)
    requires (forall r :: r in a ==> r in b) && (forall r :: r in b ==> r in a)
    ensures a == b
    decreases |a|
  {
    hide RowLess;
    EmptyTogether(a, b);
    EmptyTogether(b, a);
    if a != [] {
      assert a[0] in b;
      var i :| 0 <= i < |b| && b[i] == a[0];
      assert b[0] in a;
      var j :| 0 <= j < |a| && a[j] == b[0];
      if i > 0 && j > 0 {
        RowIrreflexive(a[0], a[j]);
      }
      TailRows(a, b);
      TailRows(b, a);
      OneRowOrder(a[1..], b[1..]);
      assert a == [a[0]] + a[1..] && b == [b[0]] + b[1..];
    }
  }

  lemma EmptyTogether(a: seq<Row>, b: seq<Row>)
    requires forall r :: r in a ==> r in b
    ensures a != [] ==> b != []
  {
    if a != [] {
      assert a[0] in b;
    }
  }

  lemma TailRows(a: seq<Row>, b: seq<Row>)
    requires RowsAscending(a) && (forall r :: r in a ==> r in b) && a != [] && b != [] && a[0] == b[0]
    ensures RowsAscending(a[1..]) && forall r :: r in a[1..] ==> r in b[1..]
  {
    hide RowLess;
    forall r | r in a[1..]
      ensures r in b[1..]
    {
      var i :| 0 <= i < |a| - 1 && a[1..][i] == r;
      assert r == a[i + 1] && r in a;
      RowIrreflexive(a[0], a[i + 1]);
      assert b == [b[0]] + b[1..];
    }
  }
}

/** The dead-drop store: drops on a byte budget, admitted at most six an hour
    for each security context. */
module DeadDrop {
  import opened Options
  import opened RateWindow
  import opened Shelf

  const POSTS_PER_HOUR := 6
  const HOUR := 3600.0
  const MAX_DROP_SIZE := 1536
  const MAX_RECORDS := 32

  const DEFAULT_TTL := 86400
  const MAX_TTL := 604800

  /** A floating-point value of a record. */
  datatype Number = Finite(x: real) | PlusInfinity | MinusInfinity | NaN

  datatype Field = Field(name: Option<string>, value: Option<Number>)

  /** What decoding the body yields: its records, and whether the privacy
      record, if any, is well formed. */
  datatype Decoded = Undecodable | Pack(records: seq<Field>, privacyOk: bool)

  /** What a drop holds besides its identifier, age and size. */
  datatype Drop = Drop(context: string, records: seq<Field>)

  datatype Outcome =
    | Unauthorized
    | BadRequest
    | EntityTooLarge
    | TooManyRequests(retryAfter: nat)
    | ServiceUnavailable(retryAfter: nat, available: nat)
    | Created(id: string, maxAge: nat)

  /** The gates of a post before the store is consulted. */
  function Refusal(identity: Option<string>, size: nat, decoded: Decoded): (r: Option<Outcome>) {
    if identity.None? then Some(Unauthorized)
    else if size == 0 then Some(BadRequest)
    else if size > MAX_DROP_SIZE then Some(EntityTooLarge)
    else if decoded.Undecodable? || |decoded.records| > MAX_RECORDS then Some(BadRequest)
    else None
  }

  // ------------------------------------------------------------- retention

  /** The value of the last record of that name that has one. */
  function LastValue(records: seq<Field>, name: string): Option<Number> {
    if records == [] then None
    else
      var last := records[|records| - 1];
      if last.name == Some(name) && last.value.Some? then last.value
      else LastValue(records[..|records| - 1], name)
  }

  /** Whole seconds, cut to the permitted range. */
  function Clamp(x: real): nat {
    if x <= 0.0 then 0 else if x.Floor > MAX_TTL then MAX_TTL else x.Floor
  }

  function ClampNumber(n: Number): nat {
    match n
    case Finite(x) => Clamp(x)
    case PlusInfinity => MAX_TTL
    case MinusInfinity => 0
    case NaN => 0
  }

  /** A ttl record wins over an expires record; without either, the default. */
  function Retention(records: seq<Field>, now: real): nat {
    var ttl, expires := LastValue(records, "ttl"), LastValue(records, "expires");
    if ttl.Some? then ClampNumber(ttl.value)
    else if expires.None? then DEFAULT_TTL
    else if expires.value.Finite? then Clamp(expires.value.x - now)
    else ClampNumber(expires.value)
  }

  method ExtractTtl(records: seq<Field>, now: real) returns (ttl: nat)
    ensures ttl == Retention(records, now) <= MAX_TTL
  {
    var given, expires := None, None;
    for i := 0 to |records|
      invariant given == LastValue(records[..i], "ttl") && expires == LastValue(records[..i], "expires")
    {
      assert records[..i + 1][..i] == records[..i];
      var record := records[i];
      if record.value.Some? {
        if record.name == Some("ttl") {
          given := record.value;
        } else if record.name == Some("expires") {
          expires := record.value;
        }
      }
    }
    assert records[..|records|] == records;
    if given.Some? {
      return ClampNumber(given.value);
    }
    if expires.Some? {
      return if expires.value.Finite? then Clamp(expires.value.x - now) else ClampNumber(expires.value);
    }
    ttl := DEFAULT_TTL;
  }

  /** A drop that names only when it expires is gone by then, and at most a
      second or the permitted maximum before. */
  lemma ExpiryHonoured(records: seq<Field>, item: Item<Drop>, later: real)
    requires LastValue(records, "ttl") == None
    requires LastValue(records, "expires").Some? && LastValue(records, "expires").value.Finite?
    requires item.ttl == Retention(records, item.created) && later >= item.created
    ensures var expires := LastValue(records, "expires").value.x;
            && (later >= expires ==> !Alive(item, later))
            && (later <= expires - 1.0 && later < item.created + MAX_TTL as real ==> Alive(item, later))
  {
  }

  /** The clock readings of one post, in the order they are taken. */
  datatype Readings = Readings(reaped: real, asked: real, created: real, pruned: real,
                               reapedAgain: real, recorded: real)

  predicate InOrder(t: Readings, from: real) {
    from <= t.reaped <= t.asked <= t.created <= t.pruned <= t.reapedAgain <= t.recorded
  }

  class DeadDropStore {
    const storageLimit: nat
    var drops: seq<Item<Drop>>
    var requestTimes: Buckets
    var currentStorage: nat
    var version: nat
    /** A clock reading no earlier than any stored, the latest reaping cutoff,
        and for each context the times at which each drop it ever posted was
        recorded, and the creation times of those drops. */
    ghost var clock: real
    ghost var cutoff: real
    ghost var history: Buckets
    ghost var born: Buckets
    /** Every drop ever stored. */
    ghost var admitted: seq<Item<Drop>>

    ghost predicate Valid()
      reads this
    {
      && Stored()
      && Limited()
    }

    /** Accounting is exact and within budget; identifiers are distinct. The
        version counts the drops ever stored, and those here are among them. */
    ghost predicate Stored()
      reads this`drops, this`currentStorage, this`clock, this`version, this`admitted
    {
      && version == |admitted| && (forall i :: 0 <= i < |drops| ==> drops[i] in admitted)
      && currentStorage == Total(drops) <= storageLimit
      && Ordered(drops)
      && forall i :: 0 <= i < |drops| ==> drops[i].created <= clock
    }

    /** No context ever posted seven drops within one hour. */
    ghost predicate Limited()
      reads this`requestTimes, this`history, this`born, this`cutoff, this`clock
    {
      && Tracks(requestTimes, history, cutoff, clock)
      && cutoff <= clock - HOUR
      && AllSpaced(history, POSTS_PER_HOUR, HOUR)
      && Bounded(requestTimes, POSTS_PER_HOUR)
      && Paired(born, history) && AllSpaced(born, POSTS_PER_HOUR, HOUR)
    }

    /** A zero budget is refused at creation, with an error. */
    constructor (limit: nat, now: real)
      requires limit > 0
      ensures Valid() && drops == admitted == [] && history == born == map[]
      ensures storageLimit == limit && clock == now
    {
      storageLimit := limit;
      drops, requestTimes, currentStorage, version := [], map[], 0, 0;
      clock, cutoff, history, born, admitted := now, now - HOUR, map[], map[], [];
    }

    method PruneExpired(now: real) returns (pruned: bool)
      requires Stored() && clock <= now
      modifies this`drops, this`currentStorage
      ensures Stored() && drops == Live(old(drops), now)
      ensures pruned <==> drops != old(drops)
    {
      LiveExact(drops, now);
      LiveLength(drops, now);
      var live := Live(drops, now);
      forall i | 0 <= i < |live|
        ensures live[i].created <= clock && live[i] in admitted
      {
        assert live[i] in drops;
      }
      pruned := |live| != |drops|;
      if pruned {
        currentStorage := SumSizes(live);
      }
      drops := live;
    }

    /** True exactly when an empty store could hold the drop; then what stays
        is the longest run of newest unexpired drops that leaves room. */
    method EvictForSpace(needed: nat, now: real) returns (ok: bool)
      requires Stored() && clock <= now
      modifies this`drops, this`currentStorage
      ensures Stored() && (ok <==> needed <= storageLimit)
      ensures !ok ==> drops == old(drops) && currentStorage == old(currentStorage)
      ensures ok ==> drops == Fit(Live(old(drops), now), storageLimit - needed)
      ensures ok ==> currentStorage + needed <= storageLimit
    {
      if needed > storageLimit {
        return false;
      }
      var _ := PruneExpired(now);
      while currentStorage + needed > storageLimit && drops != []
        invariant Stored()
        invariant Fit(drops, storageLimit - needed) == Fit(Live(old(drops), now), storageLimit - needed)
        decreases |drops|
      {
        currentStorage := currentStorage - drops[0].size;
        drops := drops[1..];
      }
      ok := currentStorage + needed <= storageLimit;
    }

    method ReapStaleBuckets(now: real)
      requires Limited() && clock <= now
      modifies this`requestTimes, this`cutoff, this`clock
      ensures Limited() && clock == now && cutoff == now - HOUR
      ensures requestTimes == Reap(old(requestTimes), now - HOUR)
    {
      ReapTracks(requestTimes, history, cutoff, clock, now - HOUR, now);
      ReapBounded(requestTimes, now - HOUR, POSTS_PER_HOUR);
      requestTimes := Reap(requestTimes, now - HOUR);
      cutoff := now - HOUR;
      clock := now;
    }

    /** Refused exactly when six drops were posted in the hour before the first
        reading. The wait is the least whole number of seconds, from the second
        reading on, after which the answer changes; if it has changed between
        the two readings, the wait is one second. */
    method CheckRateLimit(context: string, reapedAt: real, askedAt: real) returns (allowed: bool, retryAfter: nat)
      requires Limited() && clock <= reapedAt <= askedAt
      modifies this`requestTimes, this`cutoff, this`clock
      ensures Limited() && clock == askedAt && cutoff == reapedAt - HOUR
      ensures allowed <==> InWindow(At(history, context), reapedAt, HOUR) < POSTS_PER_HOUR
      ensures allowed ==> retryAfter == 0
      ensures !allowed ==> WaitIs(At(history, context), askedAt, retryAfter)
    {
      hide Recent, Spaced, Wait;
      ReapStaleBuckets(reapedAt);
      var times := At(requestTimes, context);
      ghost var past := At(history, context);
      assert times == Recent(past, reapedAt - HOUR) && |times| == InWindow(past, reapedAt, HOUR);
      TracksLater(requestTimes, history, cutoff, clock, askedAt);
      clock := askedAt;
      if |times| < POSTS_PER_HOUR {
        return true, 0;
      }
      WaitExact(past, reapedAt, askedAt);
      allowed, retryAfter := false, Wait(times, askedAt);
    }

    method RecordRequest(context: string, t: Readings)
      requires Limited() && clock <= t.created && InOrder(t, t.reaped)
      requires InWindow(At(history, context), t.reaped, HOUR) < POSTS_PER_HOUR
      modifies this`requestTimes, this`cutoff, this`clock, this`history, this`born
      ensures Limited() && clock == t.recorded
      ensures history == Record(old(history), context, t.recorded)
      ensures born == Record(old(born), context, t.created)
    {
      hide Recent, Spaced, InWindow;
      ReapStaleBuckets(t.reapedAgain);
      LaterFewer(At(history, context), t.reaped, t.reapedAgain);
      LaterFewer(At(history, context), t.reaped, t.recorded);
      BucketSize(requestTimes, history, t.reapedAgain, HOUR, clock, context);
      TracksLater(requestTimes, history, cutoff, clock, t.recorded);
      RecordTracks(requestTimes, history, cutoff, t.recorded, context);
      RecordSpaced(history, context, t.recorded, POSTS_PER_HOUR, HOUR);
      RecordBounded(requestTimes, context, t.recorded, POSTS_PER_HOUR);
      RecordPaired(born, history, context, t.created, t.recorded);
      RecordFirstStamp(born, history, context, t.reaped, t.created, POSTS_PER_HOUR, HOUR);
      requestTimes := Record(requestTimes, context, t.recorded);
      history := Record(history, context, t.recorded);
      born := Record(born, context, t.created);
      clock := t.recorded;
    }

    method Push(item: Item<Drop>)
      requires Stored() && !Named(drops, item.id) && item.created >= clock
      requires currentStorage + item.size <= storageLimit
      modifies this`drops, this`currentStorage, this`clock, this`version, this`admitted
      ensures Stored() && clock == item.created
      ensures drops == old(drops) + [item] && admitted == old(admitted) + [item]
    {
      TotalAppend(drops, item);
      AppendOrdered(drops, item);
      drops := drops + [item];
      currentStorage := currentStorage + item.size;
      version := version + 1;
      admitted := admitted + [item];
      clock := item.created;
    }

    /** Room is made by dropping the expired and then the oldest, and only for
        a drop that will be stored. */
    method Admit(item: Item<Drop>, prunedAt: real) returns (ok: bool)
      requires Stored() && clock <= item.created && clock <= prunedAt && !Named(drops, item.id)
      modifies this`drops, this`currentStorage, this`clock, this`version, this`admitted
      ensures Stored() && (ok <==> item.size <= storageLimit)
      ensures clock == if ok then item.created else old(clock)
      ensures ok ==> drops == Fit(Live(old(drops), prunedAt), storageLimit - item.size) + [item]
      ensures ok ==> admitted == old(admitted) + [item]
      ensures !ok ==> drops == old(drops) && currentStorage == old(currentStorage) && admitted == old(admitted)
    {
      hide Ordered, Live, Fit, Total;
      KeptFrom(drops, prunedAt, storageLimit - item.size);
      ok := EvictForSpace(item.size, prunedAt);
      if ok {
        Push(item);
      }
    }

    /** Direct delivery into the store: no quota, and an explicit identifier
        must be canonical and unused. */
    method AddDrop(records: seq<Field>, encoded: Option<nat>, explicitTtl: Option<nat>, privacyOk: bool,
                   context: string, explicitId: Option<string>, draws: seq<string>,
                   readAt: real, prunedAt: real, createdAt: real)
      returns (id: Option<string>)
      requires Valid() && clock <= readAt <= prunedAt <= createdAt
      modifies this`drops, this`currentStorage, this`clock, this`version, this`admitted
      ensures Valid() && clock <= createdAt
      ensures id.None? ==> drops == old(drops) && currentStorage == old(currentStorage) && admitted == old(admitted)
      ensures id.Some? ==>
        && encoded.Some? && !Named(old(drops), id.value)
        && var drop := Item(id.value, createdAt, ChosenTtl(explicitTtl, records, readAt), encoded.value,
                            Drop(context, records));
           && drops == Fit(Live(old(drops), prunedAt), storageLimit - encoded.value) + [drop]
           && admitted == old(admitted) + [drop]
      ensures id.Some? <==>
        && encoded.Some? && encoded.value <= MAX_DROP_SIZE && |records| <= MAX_RECORDS && privacyOk
        && (if explicitId.Some? then CanonicalId(explicitId.value) && !Named(old(drops), explicitId.value)
            else !AllUsed(old(drops), draws))
        && encoded.value <= storageLimit
    {
      hide Recent, InWindow, Spaced, Bounded, AllSpaced, Ordered, Live, Fit, Total, AllUsed, CanonicalId, Retention;
      if encoded.None? || encoded.value > MAX_DROP_SIZE || |records| > MAX_RECORDS || !privacyOk {
        return None;
      }
      var ttl: nat;
      if explicitTtl.Some? {
        ttl := if explicitTtl.value > MAX_TTL then MAX_TTL else explicitTtl.value;
      } else {
        ttl := ExtractTtl(records, readAt);
      }
      if explicitId.Some? {
        if !CanonicalId(explicitId.value) || Named(drops, explicitId.value) {
          return None;
        }
        id := explicitId;
      } else {
        id := FreshId(drops, draws);
        if id.None? {
          return None;
        }
      }
      var ok := Admit(Item(id.value, createdAt, ttl, encoded.value, Drop(context, records)), prunedAt);
      if !ok {
        return None;
      }
    }

    /** A refused post changes no drop and uses no quota. A stored one is the
        newest drop behind the longest run of unexpired drops that fits. */
    method Post(identity: Option<string>, size: nat, decoded: Decoded, draws: seq<string>, t: Readings)
      returns (r: Outcome)
      requires Valid() && InOrder(t, clock)
      modifies this
      ensures Valid() && clock <= t.recorded
      ensures !r.Created? ==>
        && drops == old(drops) && currentStorage == old(currentStorage)
        && admitted == old(admitted) && history == old(history) && born == old(born)
      ensures r.Created? ==>
        && identity.Some? && decoded.Pack? && r.id in draws && r.maxAge == Retention(decoded.records, t.created)
        && !Named(old(drops), r.id)
        && history == Record(old(history), identity.value, t.recorded)
        && born == Record(old(born), identity.value, t.created)
        && var drop := Item(r.id, t.created, r.maxAge, size, Drop(identity.value, decoded.records));
           && drops == Fit(Live(old(drops), t.pruned), storageLimit - size) + [drop]
           && admitted == old(admitted) + [drop]
      ensures var refusal := Refusal(identity, size, decoded);
              if refusal.Some? then r == refusal.value
              else if InWindow(At(old(history), identity.value), t.reaped, HOUR) >= POSTS_PER_HOUR then
                r.TooManyRequests?
              else if !decoded.privacyOk then r == BadRequest
              else if size > storageLimit || AllUsed(old(drops), draws) then
                r == ServiceUnavailable(3600, storageLimit - currentStorage)
              else r.Created?
      ensures r.TooManyRequests? ==> WaitIs(At(history, identity.value), t.asked, r.retryAfter)
    {
      hide Recent, InWindow, Spaced, Tracks, Bounded, AllSpaced, Paired;
      hide Ordered, Live, Fit, Total, AllUsed, Retention, WaitIs;
      var refusal := Refusal(identity, size, decoded);
      if refusal.Some? {
        return refusal.value;
      }
      var context := identity.value;
      var allowed, retryAfter := CheckRateLimit(context, t.reaped, t.asked);
      if !allowed {
        return TooManyRequests(retryAfter);
      }
      var ttl := ExtractTtl(decoded.records, t.created);
      if !decoded.privacyOk {
        return BadRequest;
      }
      var id := FreshId(drops, draws);
      if id.None? {
        return ServiceUnavailable(3600, storageLimit - currentStorage);
      }
      TracksLater(requestTimes, history, cutoff, clock, t.created);
      var ok := Admit(Item(id.value, t.created, ttl, size, Drop(context, decoded.records)), t.pruned);
      if !ok {
        return ServiceUnavailable(3600, storageLimit - currentStorage);
      }
      RecordRequest(context, t);
      r := Created(id.value, ttl);
    }
  }

  function ChosenTtl(given: Option<nat>, records: seq<Field>, now: real): nat {
    if given.None? then Retention(records, now)
    else if given.value > MAX_TTL then MAX_TTL else given.value
  }

  /** Six lower-case hexadecimal digits. */
  predicate CanonicalId(id: string) {
    |id| == 6 && forall i :: 0 <= i < |id| ==> '0' <= id[i] <= '9' || 'a' <= id[i] <= 'f'
  }

  lemma {:induction false} LiveLength<D>(items: seq<Item<D>>, now: real)
    ensures |Live(items, now)| <= |items|
    ensures |Live(items, now)| == |items| ==> Live(items, now) == items
  {
    if items != [] {
      LiveLength(items[1..], now);
      assert items == [items[0]] + items[1..];
    }
  }

  function Minimum(times: seq<real>): (m: real)
    requires times != []
    ensures m in times && forall i :: 0 <= i < |times| ==> m <= times[i]
  {
    if |times| == 1 then times[0]
    else
      var rest := Minimum(times[1..]);
      if times[0] < rest then times[0] else rest
  }

  function Wait(recent: seq<real>, now: real): nat
    requires recent != []
  {
    var wait := Ceil(HOUR - (now - Minimum(recent)));
    if wait < 1 then 1 else wait
  }

  /** The least wait while six drops are in the window, else one second. */
  ghost predicate WaitIs(past: seq<real>, askedAt: real, wait: nat) {
    if InWindow(past, askedAt, HOUR) >= POSTS_PER_HOUR then
      forall k: nat :: InWindow(past, After(askedAt, k), HOUR) < POSTS_PER_HOUR <==> k >= wait
    else wait == 1
  }

  lemma WaitExact(past: seq<real>, reapedAt: real, askedAt: real)
    requires Sorted(past) && InWindow(past, reapedAt, HOUR) == POSTS_PER_HOUR && reapedAt <= askedAt
    ensures WaitIs(past, askedAt, Wait(Recent(past, reapedAt - HOUR), askedAt))
  {
    hide Recent;
    WaitLater(past, reapedAt, askedAt, HOUR);
    LaterFewer(past, reapedAt, askedAt);
    RecentIsTail(past, reapedAt - HOUR);
    assert Minimum(Recent(past, reapedAt - HOUR)) == Recent(past, reapedAt - HOUR)[0];
  }

  lemma LaterFewer(past: seq<real>, now: real, later: real)
    requires now <= later
    ensures InWindow(past, later, HOUR) <= InWindow(past, now, HOUR)
  {
    RecentShrinks(past, now - HOUR, later - HOUR);
  }
}

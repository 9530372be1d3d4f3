/** The confession store: posts at least thirty seconds apart and at most twelve
    an hour for each source, on a byte budget. */
module Confessions {
  import opened Options
  import opened RateWindow
  import opened Shelf

  const COOLDOWN := 30.0
  const WINDOW := 3600.0
  const HOURLY_MAX := 12
  const MAX_SIZE := 768
  const DEFAULT_TTL := 12 * 3600
  const MAX_TTL := 48 * 3600
  const UNAUTHENTICATED := "unauthenticated"

  datatype Reason = Cooldown | HourlyLimit

  datatype Decision = Allow | Deny(retryAfter: nat, reason: Reason)

  datatype Payload = Payload(claimed: Option<string>, content: Option<string>, ttl: Option<nat>, anonymous: bool,
                             kind: Option<string>, baseTime: Option<real>, lat: Option<real>, lon: Option<real>)

  /** What a confession shows. */
  datatype Entry = Entry(content: string, kind: string, stamp: real, anonymous: bool, source: Option<string>,
                         lat: Option<real>, lon: Option<real>)

  datatype Outcome =
    | BadRequest
    | TooLarge
    | TooManyRequests(retryAfter: nat, reason: Reason)
    | Unavailable
    | Created(id: string)

  predicate Acceptable(payload: Option<Payload>) {
    && payload.Some?
    && payload.value.claimed.Some?
    && payload.value.content.Some? && payload.value.content.value != ""
  }

  function RateKey(source: Option<string>): string {
    if source.Some? then source.value else UNAUTHENTICATED
  }

  function Lifetime(ttl: Option<nat>): nat {
    if ttl.None? then DEFAULT_TTL else if ttl.value > MAX_TTL then MAX_TTL else ttl.value
  }

  /** The name shown: only an authenticated one, only if the post claims it
      and does not ask for anonymity. */
  function Displayed(payload: Payload, source: Option<string>): Option<string> {
    if payload.anonymous || source != payload.claimed then None else source
  }

  /** The kind defaults to "confession", the time stamp to the time of receipt. */
  function Shown(payload: Payload, source: Option<string>, now: real): (e: Entry)
    requires payload.content.Some?
    ensures e.source.Some? ==> e.source == source == payload.claimed && !e.anonymous
  {
    Entry(payload.content.value,
          if payload.kind.Some? then payload.kind.value else "confession",
          if payload.baseTime.Some? then payload.baseTime.value else now,
          payload.anonymous, Displayed(payload, source), payload.lat, payload.lon)
  }

  /** The clock readings of one post, in the order they are taken. */
  datatype Readings = Readings(reaped: real, asked: real, pruned: real, created: real,
                               reapedAgain: real, recorded: real)

  predicate InOrder(t: Readings, from: real) {
    from <= t.reaped <= t.asked <= t.pruned <= t.created <= t.reapedAgain <= t.recorded
  }

  class ConfessionStore {
    const storageLimit: nat
    var confessions: seq<Item<Entry>>
    var totalSize: nat
    var requestTimes: Buckets
    /** A clock reading no earlier than any stored, the latest reaping cutoff,
        and for each key every time ever recorded and the receive times of the
        confessions it posted. */
    ghost var clock: real
    ghost var cutoff: real
    ghost var history: Buckets
    ghost var born: Buckets

    ghost predicate Valid()
      reads this
    {
      && Stored()
      && Tracked()
    }

    /** A budget that can hold any one post is never exceeded. */
    ghost predicate Stored()
      reads this`confessions, this`totalSize, this`clock
    {
      && totalSize == Total(confessions)
      && (MAX_SIZE <= storageLimit ==> totalSize <= storageLimit)
      && Ordered(confessions)
      && forall i :: 0 <= i < |confessions| ==> confessions[i].created <= clock
    }

    /** The buckets are the recorded times of the last hour. */
    ghost predicate Tracked()
      reads this`requestTimes, this`history, this`cutoff, this`clock
    {
      Tracks(requestTimes, history, cutoff, clock) && cutoff <= clock - WINDOW
    }

    /** No two posts of a key within thirty seconds, no thirteen in an hour. It
        holds as long as times are recorded by posts only. */
    ghost predicate Limited()
      reads this`history, this`born
    {
      && AllSpaced(history, 1, COOLDOWN) && AllSpaced(history, HOURLY_MAX, WINDOW)
      && Paired(born, history)
      && AllSpaced(born, 1, COOLDOWN) && AllSpaced(born, HOURLY_MAX, WINDOW)
    }

    constructor (limit: nat, now: real)
      requires limit > 0
      ensures Valid() && Limited() && confessions == [] && history == born == map[]
      ensures storageLimit == limit && clock == now
    {
      storageLimit := limit;
      confessions, requestTimes, totalSize := [], map[], 0;
      clock, cutoff, history, born := now, now - WINDOW, map[], map[];
    }

    method PruneExpired(now: real)
      requires Stored() && clock <= now
      modifies this`confessions, this`totalSize
      ensures Stored() && confessions == Live(old(confessions), now)
    {
      LiveExact(confessions, now);
      var live := Live(confessions, now);
      forall i | 0 <= i < |live|
        ensures live[i].created <= clock
      {
        assert live[i] in confessions;
      }
      confessions := live;
      totalSize := SumSizes(live);
    }

    method EvictOldest(needed: nat)
      requires Stored()
      modifies this`confessions, this`totalSize
      ensures Stored() && confessions == Fit(old(confessions), storageLimit - needed)
      ensures confessions != [] ==> totalSize + needed <= storageLimit
    {
      while confessions != [] && totalSize + needed > storageLimit
        invariant Stored()
        invariant Fit(confessions, storageLimit - needed) == Fit(old(confessions), storageLimit - needed)
        decreases |confessions|
      {
        totalSize := totalSize - confessions[0].size;
        confessions := confessions[1..];
      }
    }

    method ReapStaleRateBuckets(now: real)
      requires Tracked() && clock <= now
      modifies this`requestTimes, this`cutoff, this`clock
      ensures Tracked() && clock == now && cutoff == now - WINDOW
      ensures requestTimes == Reap(old(requestTimes), now - WINDOW)
    {
      ReapTracks(requestTimes, history, cutoff, clock, now - WINDOW, now);
      requestTimes := Reap(requestTimes, now - WINDOW);
      cutoff := now - WINDOW;
      clock := now;
    }

    /** Allowed exactly when nothing was recorded within the cooldown before the
        second reading and fewer than twelve within the hour before the first.
        The wait given is the least whole number of seconds that ends it. */
    method CheckRateLimit(key: string, reapedAt: real, askedAt: real) returns (d: Decision)
      requires Tracked() && clock <= reapedAt <= askedAt
      modifies this`requestTimes, this`cutoff, this`clock
      ensures Tracked() && clock == askedAt && cutoff == reapedAt - WINDOW
      ensures d.Allow? <==> Admissible(At(history, key), reapedAt, askedAt)
      ensures d.Deny? ==> Denial(At(history, key), reapedAt, askedAt, d.retryAfter, d.reason)
    {
      hide Recent, Spaced, Sorted, LeastAfter;
      ReapStaleRateBuckets(reapedAt);
      var times := At(requestTimes, key);
      ghost var past := At(history, key);
      assert Sorted(past) && times == Recent(past, reapedAt - WINDOW);
      TracksLater(requestTimes, history, cutoff, clock, askedAt);
      clock := askedAt;
      LastDecides(past, reapedAt, askedAt);
      if times == [] {
        return Allow;
      }
      var since := askedAt - times[|times| - 1];
      if since < COOLDOWN {
        CooldownWait(past, reapedAt, askedAt);
        return Deny(NonNegative(Ceil(COOLDOWN - since)), Cooldown);
      }
      if |times| >= HOURLY_MAX {
        HourlyWait(past, reapedAt, askedAt);
        return Deny(NonNegative(Ceil(WINDOW - (askedAt - times[0]))), HourlyLimit);
      }
      d := Allow;
    }

    /** Records whatever it is told to. */
    method RecordRequest(key: string, reapedAt: real, recordedAt: real)
      requires Tracked() && clock <= reapedAt <= recordedAt
      modifies this`requestTimes, this`cutoff, this`clock, this`history
      ensures Tracked() && clock == recordedAt && history == Record(old(history), key, recordedAt)
    {
      hide Recent;
      ReapStaleRateBuckets(reapedAt);
      TracksLater(requestTimes, history, cutoff, clock, recordedAt);
      RecordTracks(requestTimes, history, cutoff, recordedAt, key);
      requestTimes := Record(requestTimes, key, recordedAt);
      history := Record(history, key, recordedAt);
      clock := recordedAt;
    }

    /** The quota left counts the last hour exactly; it is absent, where the
        subtraction overflows, exactly when more than twelve were recorded in it,
        which posts alone never do. The reset is when the oldest leaves. */
    method RateInfo(key: string, reapedAt: real, askedAt: real) returns (remaining: Option<nat>, reset: nat)
      requires Tracked() && clock <= reapedAt <= askedAt
      modifies this`requestTimes, this`cutoff, this`clock
      ensures Tracked() && clock == askedAt
      ensures var n := InWindow(At(history, key), reapedAt, WINDOW);
              && remaining == (if n <= HOURLY_MAX then Some(HOURLY_MAX - n) else None)
              && (Limited() ==> n <= HOURLY_MAX)
      ensures var recent := Recent(At(history, key), reapedAt - WINDOW);
              reset == if recent == [] then 3600 else NonNegative((WINDOW - (askedAt - recent[0])).Floor)
    {
      hide Recent, Sorted, UpTo, Spaced, Paired;
      ReapStaleRateBuckets(reapedAt);
      ghost var past := At(history, key);
      assert At(requestTimes, key) == Recent(past, reapedAt - WINDOW);
      assert Sorted(past) && UpTo(past, reapedAt);
      if Limited() {
        assert Spaced(past, HOURLY_MAX, WINDOW);
        AtMostN(past, reapedAt, HOURLY_MAX, WINDOW);
      }
      TracksLater(requestTimes, history, cutoff, clock, askedAt);
      clock := askedAt;
      if key !in requestTimes {
        return Some(HOURLY_MAX), 3600;
      }
      var times := requestTimes[key];
      remaining := if |times| <= HOURLY_MAX then Some(HOURLY_MAX - |times|) else None;
      reset := NonNegative((WINDOW - (askedAt - times[0])).Floor);
    }

    method Push(item: Item<Entry>)
      requires Stored() && !Named(confessions, item.id) && item.created >= clock
      requires confessions != [] ==> totalSize + item.size <= storageLimit
      requires item.size <= MAX_SIZE
      modifies this`confessions, this`totalSize, this`clock
      ensures Stored() && clock == item.created && confessions == old(confessions) + [item]
      ensures totalSize <= storageLimit <==> item.size <= storageLimit
    {
      TotalAppend(confessions, item);
      AppendOrdered(confessions, item);
      totalSize := totalSize + item.size;
      confessions := confessions + [item];
      clock := item.created;
    }

    /** A post that was let through is recorded. */
    method Remember(key: string, t: Readings)
      requires Tracked() && clock <= t.created && InOrder(t, t.reaped)
      requires Admissible(At(history, key), t.reaped, t.asked)
      modifies this`requestTimes, this`cutoff, this`clock, this`history, this`born
      ensures Tracked() && clock == t.recorded && (old(Limited()) ==> Limited())
      ensures history == Record(old(history), key, t.recorded) && born == Record(old(born), key, t.created)
    {
      hide AllSpaced, Recent, Admissible;
      assert Sorted(At(history, key)) && UpTo(At(history, key), clock);
      if Limited() {
        StillLimited(born, history, key, t);
      }
      RecordRequest(key, t.reapedAgain, t.recorded);
      born := Record(born, key, t.created);
    }

    /** A post that is turned away before the store is consulted changes
        nothing; a stored one comes after the longest run of living confessions
        that leaves room. Only a post larger than the whole budget exceeds it. */
    method Post(size: nat, payload: Option<Payload>, source: Option<string>, draws: seq<string>, t: Readings)
      returns (r: Outcome)
      requires Valid() && InOrder(t, clock)
      modifies this
      ensures Valid() && clock <= t.recorded && (old(Limited()) ==> Limited())
      ensures if size == 0 then r == BadRequest
              else if size > MAX_SIZE then r == TooLarge
              else if !Acceptable(payload) then r == BadRequest
              else if !Admissible(At(old(history), RateKey(source)), t.reaped, t.asked) then
                && r.TooManyRequests?
                && Denial(At(old(history), RateKey(source)), t.reaped, t.asked, r.retryAfter, r.reason)
              else if AllUsed(Fit(Live(old(confessions), t.pruned), storageLimit - size), draws) then r == Unavailable
              else r.Created?
      ensures !r.Created? ==> history == old(history) && born == old(born)
      ensures !r.Created? && !r.Unavailable? ==> confessions == old(confessions) && totalSize == old(totalSize)
      ensures r.Unavailable? ==> confessions == Fit(Live(old(confessions), t.pruned), storageLimit - size)
      ensures r.Created? ==>
        && r.id in draws
        && confessions == Fit(Live(old(confessions), t.pruned), storageLimit - size)
            + [Item(r.id, t.created, Lifetime(payload.value.ttl), size, Shown(payload.value, source, t.created))]
        && history == Record(old(history), RateKey(source), t.recorded)
        && born == Record(old(born), RateKey(source), t.created)
        && (totalSize <= storageLimit <==> size <= storageLimit)
    {
      hide Recent, InWindow, Spaced, Tracks, Limited, AllSpaced, Paired;
      hide Ordered, Live, Fit, Total, AllUsed, Admissible, Denial;
      if size == 0 {
        return BadRequest;
      }
      if size > MAX_SIZE {
        return TooLarge;
      }
      if !Acceptable(payload) {
        return BadRequest;
      }
      var key := RateKey(source);
      var decision := CheckRateLimit(key, t.reaped, t.asked);
      if decision.Deny? {
        return TooManyRequests(decision.retryAfter, decision.reason);
      }
      PruneExpired(t.pruned);
      EvictOldest(size);
      var id := FreshId(confessions, draws);
      if id.None? {
        return Unavailable;
      }
      TracksLater(requestTimes, history, cutoff, clock, t.created);
      var entry := Shown(payload.value, source, t.created);
      Push(Item(id.value, t.created, Lifetime(payload.value.ttl), size, entry));
      Remember(key, t);
      r := Created(id.value);
    }
  }

  /** Thirteen requests recorded from outside within an hour overflow the quota. */
  method QuotaOverflows(limit: nat, key: string, now: real) returns (remaining: Option<nat>)
    requires limit > 0
    ensures remaining == None
  {
    hide Recent, Tracks;
    var store := new ConfessionStore(limit, now);
    var n := 0;
    while n <= HOURLY_MAX
      invariant 0 <= n <= HOURLY_MAX + 1 && fresh(store) && store.Tracked() && store.clock == now
      invariant InWindow(At(store.history, key), now, WINDOW) == n
      decreases HOURLY_MAX + 1 - n
    {
      ghost var past := At(store.history, key);
      store.RecordRequest(key, now, now);
      RecentAppend(past, now, now - WINDOW);
      n := n + 1;
    }
    var reset: nat;
    remaining, reset := store.RateInfo(key, now, now);
  }

  ghost predicate Admissible(past: seq<real>, reapedAt: real, askedAt: real) {
    InWindow(past, askedAt, COOLDOWN) == 0 && InWindow(past, reapedAt, WINDOW) < HOURLY_MAX
  }

  /** `wait` is the least number of whole seconds after which fewer than `n`
      posts are within the window of length `gap`. */
  ghost predicate LeastAfter(past: seq<real>, now: real, n: nat, gap: real, wait: nat) {
    forall k: nat :: InWindow(past, After(now, k), gap) < n <==> k >= wait
  }

  /** The hourly wait is for the oldest of the times found to leave; these are
      exactly twelve when only posts record. */
  ghost predicate Denial(past: seq<real>, reapedAt: real, askedAt: real, wait: nat, reason: Reason) {
    match reason
    case Cooldown => InWindow(past, askedAt, COOLDOWN) > 0 && LeastAfter(past, askedAt, 1, COOLDOWN, wait)
    case HourlyLimit =>
      var n := InWindow(past, reapedAt, WINDOW);
      InWindow(past, askedAt, COOLDOWN) == 0 && n >= HOURLY_MAX && LeastAfter(past, askedAt, n, WINDOW, wait)
  }

  /** The newest post alone decides the cooldown. */
  lemma LastDecides(past: seq<real>, reapedAt: real, askedAt: real)
    requires Sorted(past) && reapedAt <= askedAt
    ensures var times := Recent(past, reapedAt - WINDOW);
            InWindow(past, askedAt, COOLDOWN) == 0 <==> times == [] || askedAt - times[|times| - 1] >= COOLDOWN
  {
    hide Recent;
    RecentIsTail(past, reapedAt - WINDOW);
    NewestDecides(past, reapedAt, WINDOW);
    NewestDecides(past, askedAt, COOLDOWN);
  }

  lemma CooldownWait(past: seq<real>, reapedAt: real, askedAt: real)
    requires Sorted(past) && reapedAt <= askedAt && InWindow(past, askedAt, COOLDOWN) > 0
    requires InWindow(past, reapedAt, WINDOW) > 0
    ensures var times := Recent(past, reapedAt - WINDOW);
            var wait := Ceil(COOLDOWN - (askedAt - times[|times| - 1]));
            wait >= 1 && LeastAfter(past, askedAt, 1, COOLDOWN, wait)
  {
    hide Recent;
    RecentIsTail(past, reapedAt - WINDOW);
    NewestDecides(past, askedAt, COOLDOWN);
    LeastEmptyWait(past, askedAt, COOLDOWN);
  }

  lemma HourlyWait(past: seq<real>, reapedAt: real, askedAt: real)
    requires Sorted(past) && reapedAt <= askedAt && InWindow(past, reapedAt, WINDOW) > 0
    ensures var wait := Ceil(WINDOW - (askedAt - Recent(past, reapedAt - WINDOW)[0]));
            LeastAfter(past, askedAt, InWindow(past, reapedAt, WINDOW), WINDOW, NonNegative(wait))
  {
    hide Recent;
    WaitLater(past, reapedAt, askedAt, WINDOW);
  }

  /** A post that was let through keeps both limits, for both stamps. */
  lemma StillLimited(born: Buckets, history: Buckets, key: string, t: Readings)
    requires InOrder(t, t.reaped) && Admissible(At(history, key), t.reaped, t.asked)
    requires Sorted(At(history, key)) && UpTo(At(history, key), t.created)
    requires AllSpaced(history, 1, COOLDOWN) && AllSpaced(history, HOURLY_MAX, WINDOW) && Paired(born, history)
    requires AllSpaced(born, 1, COOLDOWN) && AllSpaced(born, HOURLY_MAX, WINDOW)
    ensures var h, b := Record(history, key, t.recorded), Record(born, key, t.created);
            && AllSpaced(h, 1, COOLDOWN) && AllSpaced(h, HOURLY_MAX, WINDOW) && Paired(b, h)
            && AllSpaced(b, 1, COOLDOWN) && AllSpaced(b, HOURLY_MAX, WINDOW)
  {
    hide Recent, Spaced;
    var past := At(history, key);
    RecentShrinks(past, t.asked - COOLDOWN, t.recorded - COOLDOWN);
    RecentShrinks(past, t.reaped - WINDOW, t.recorded - WINDOW);
    RecordSpaced(history, key, t.recorded, 1, COOLDOWN);
    RecordSpaced(history, key, t.recorded, HOURLY_MAX, WINDOW);
    RecordPaired(born, history, key, t.created, t.recorded);
    RecordFirstStamp(born, history, key, t.asked, t.created, 1, COOLDOWN);
    RecordFirstStamp(born, history, key, t.reaped, t.created, HOURLY_MAX, WINDOW);
  }
}

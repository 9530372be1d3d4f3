/** Sliding-window rate limits: buckets of timestamps that forget what has left
    the window, against the full history. Clocks are non-decreasing reals. */
module RateWindow {

  ghost predicate Sorted(times: seq<real>) {
    forall i, j :: 0 <= i < j < |times| ==> times[i] <= times[j]
  }

  ghost predicate UpTo(times: seq<real>, now: real) {
    forall i :: 0 <= i < |times| ==> times[i] <= now
  }

  /** The timestamps still inside the window. */
  function Recent(times: seq<real>, cutoff: real): (r: seq<real>)
    ensures |r| <= |times|
  {
    if times == [] then []
    else
      var r := Recent(times[1..], cutoff);
      if times[0] > cutoff then [times[0]] + r else r
  }

  /** In a sorted history they are the tail behind the cutoff. */
  lemma {:induction false} RecentIsTail(times: seq<real>, cutoff: real)
    requires Sorted(times)
    ensures var k := |times| - |Recent(times, cutoff)|;
            && Recent(times, cutoff) == times[k..]
            && (forall i :: 0 <= i < k ==> times[i] <= cutoff)
            && (forall i :: k <= i < |times| ==> times[i] > cutoff)
    decreases |times|
  {
    if times != [] {
      var rest := times[1..];
      assert Sorted(rest);
      RecentIsTail(rest, cutoff);
      var k := |rest| - |Recent(rest, cutoff)|;
      assert forall i :: 1 <= i < |times| ==> times[i] == rest[i - 1];
      if times[0] > cutoff {
        assert rest != [] ==> times[0] <= times[1];
      }
    }
  }

  lemma {:induction false} RecentTwice(times: seq<real>, a: real, b: real)
    requires a <= b
    ensures Recent(Recent(times, a), b) == Recent(times, b)
    decreases |times|
  {
    if times != [] {
      RecentTwice(times[1..], a, b);
      if times[0] > a {
        var r := Recent(times[1..], a);
        assert ([times[0]] + r)[1..] == r;
      }
    }
  }

  lemma {:induction false} RecentAppend(times: seq<real>, now: real, cutoff: real)
    requires now > cutoff
    ensures Recent(times + [now], cutoff) == Recent(times, cutoff) + [now]
    decreases |times|
  {
    if times == [] {
      assert times + [now] == [now];
      assert [now][1..] == [];
    } else {
      RecentAppend(times[1..], now, cutoff);
      assert (times + [now])[1..] == times[1..] + [now];
    }
  }

  /** Any n + 1 consecutive events span at least `gap`. */
  ghost predicate Spaced(times: seq<real>, n: nat, gap: real) {
    forall i, j :: 0 <= i && i + n <= j < |times| ==> times[j] - times[i] >= gap
  }

  /** Admitting an event only with fewer than n in the window keeps it so. */
  lemma SpacedAppend(times: seq<real>, now: real, n: nat, gap: real)
    requires Sorted(times) && UpTo(times, now) && Spaced(times, n, gap)
    requires InWindow(times, now, gap) < n
    ensures Sorted(times + [now]) && Spaced(times + [now], n, gap)
  {
    RecentIsTail(times, now - gap);
    var t := times + [now];
    forall i, j | 0 <= i && i + n <= j < |t|
      ensures t[j] - t[i] >= gap
    {
      if j == |times| {
        assert i < |times| - |Recent(times, now - gap)|;
      }
    }
  }

  function Ceil(x: real): (n: int)
    ensures n as real - 1.0 < x <= n as real
  {
    -((-x).Floor)
  }

  /** How many events are in the window at time `now`. */
  function InWindow(times: seq<real>, now: real, gap: real): nat {
    |Recent(times, now - gap)|
  }

  function After(now: real, seconds: nat): real {
    now + seconds as real
  }

  /** The oldest event in the window decides when the count next drops. */
  lemma OldestDecides(times: seq<real>, now: real, later: real, n: nat, gap: real)
    requires Sorted(times) && now <= later && n > 0
    requires InWindow(times, now, gap) == n
    ensures InWindow(times, later, gap) < n <==> Recent(times, now - gap)[0] <= later - gap
  {
    RecentIsTail(times, now - gap);
    RecentIsTail(times, later - gap);
    assert Recent(times, now - gap)[0] == times[|times| - n];
    RecentShrinks(times, now - gap, later - gap);
  }

  /** Rounding its remaining time up gives the least whole number of seconds
      after which a full window has room again. */
  lemma LeastWait(times: seq<real>, now: real, n: nat, gap: real)
    requires Sorted(times) && n > 0 && InWindow(times, now, gap) == n
    ensures var wait := Ceil(gap - (now - Recent(times, now - gap)[0]));
            wait >= 1 && forall k: nat :: InWindow(times, After(now, k), gap) < n <==> k >= wait
  {
    RecentIsTail(times, now - gap);
    var oldest := Recent(times, now - gap)[0];
    assert oldest > now - gap;
    var wait := Ceil(gap - (now - oldest));
    forall k: nat
      ensures InWindow(times, After(now, k), gap) < n <==> k >= wait
    {
      OldestDecides(times, now, After(now, k), n, gap);
      WholeSeconds(gap - (now - oldest), k);
    }
  }

  /** The wait as seen from a later reading: unchanged while the window is still
      full, and over once the oldest event has left. */
  lemma WaitLater(times: seq<real>, now: real, later: real, gap: real)
    requires Sorted(times) && now <= later && InWindow(times, now, gap) > 0
    ensures var oldest := Recent(times, now - gap)[0];
            var n := InWindow(times, now, gap);
            var wait := Ceil(gap - (later - oldest));
            && (InWindow(times, later, gap) == n ==>
                  wait >= 1 && forall k: nat :: InWindow(times, After(later, k), gap) < n <==> k >= wait)
            && (InWindow(times, later, gap) != n ==>
                  wait <= 0 && forall k: nat :: InWindow(times, After(later, k), gap) < n)
  {
    hide Recent;
    var n := InWindow(times, now, gap);
    OldestDecides(times, now, later, n, gap);
    RecentShrinks(times, now - gap, later - gap);
    if InWindow(times, later, gap) == n {
      RecentIsTail(times, now - gap);
      RecentIsTail(times, later - gap);
      LeastWait(times, later, n, gap);
    } else {
      forall k: nat
        ensures InWindow(times, After(later, k), gap) < n
      {
        RecentShrinks(times, later - gap, After(later, k) - gap);
      }
    }
  }

  lemma WholeSeconds(x: real, k: int)
    ensures x <= k as real <==> k >= Ceil(x)
  {
    if x <= k as real {
      assert (Ceil(x) - 1) as real < k as real;
    }
  }

  /** Events so spaced are never more than n in the window. */
  lemma AtMostN(times: seq<real>, now: real, n: nat, gap: real)
    requires Sorted(times) && UpTo(times, now) && Spaced(times, n, gap)
    ensures InWindow(times, now, gap) <= n
  {
    RecentIsTail(times, now - gap);
    if |times| > n {
      assert times[|times| - 1] - times[|times| - 1 - n] >= gap;
    }
  }

  /** The window is empty exactly when the newest event has left it. */
  lemma NewestDecides(times: seq<real>, now: real, gap: real)
    requires Sorted(times)
    ensures InWindow(times, now, gap) == 0 <==> times == [] || times[|times| - 1] <= now - gap
  {
    RecentIsTail(times, now - gap);
  }

  /** The newest event alone decides when the window is empty. */
  lemma LeastEmptyWait(times: seq<real>, now: real, gap: real)
    requires Sorted(times) && times != [] && times[|times| - 1] > now - gap
    ensures var wait := Ceil(gap - (now - times[|times| - 1]));
            wait >= 1 && forall k: nat :: InWindow(times, After(now, k), gap) < 1 <==> k >= wait
  {
    var newest := times[|times| - 1];
    var wait := Ceil(gap - (now - newest));
    forall k: nat
      ensures InWindow(times, After(now, k), gap) < 1 <==> k >= wait
    {
      NewestDecides(times, After(now, k), gap);
      WholeSeconds(gap - (now - newest), k);
    }
  }

  function NonNegative(x: int): nat {
    if x < 0 then 0 else x
  }

  lemma RecentShrinks(times: seq<real>, a: real, b: real)
    requires a <= b
    ensures |Recent(times, b)| <= |Recent(times, a)|
  {
    RecentTwice(times, a, b);
  }

  /** One bucket of timestamps for each key. */
  type Buckets = map<string, seq<real>>

  function At(b: Buckets, key: string): seq<real> {
    if key in b then b[key] else []
  }

  /** Every bucket forgets what has left the window; empty buckets go. */
  function Reap(b: Buckets, cutoff: real): Buckets {
    map key | key in b && Recent(b[key], cutoff) != [] :: Recent(b[key], cutoff)
  }

  function Record(b: Buckets, key: string, now: real): Buckets {
    b[key := At(b, key) + [now]]
  }

  /** The buckets hold exactly what the full history has inside the window. */
  ghost predicate Tracks(b: Buckets, history: Buckets, cutoff: real, now: real) {
    && cutoff <= now
    && (forall key :: key in b ==> b[key] != [])
    && (forall key :: Sorted(At(history, key)) && UpTo(At(history, key), now))
    && (forall key :: At(b, key) == Recent(At(history, key), cutoff))
  }

  ghost predicate Bounded(b: Buckets, n: nat) {
    forall key :: |At(b, key)| <= n
  }

  lemma ReapBounded(b: Buckets, cutoff: real, n: nat)
    requires Bounded(b, n)
    ensures Bounded(Reap(b, cutoff), n)
  {
    var reaped := Reap(b, cutoff);
    forall key
      ensures |At(reaped, key)| <= n
    {
      assert |At(b, key)| <= n;
    }
  }

  ghost predicate AllSpaced(history: Buckets, n: nat, gap: real) {
    forall key :: Spaced(At(history, key), n, gap)
  }

  /** Recording an event that found room keeps every key's spacing. */
  lemma RecordSpaced(history: Buckets, key: string, now: real, n: nat, gap: real)
    requires AllSpaced(history, n, gap)
    requires Sorted(At(history, key)) && UpTo(At(history, key), now)
    requires InWindow(At(history, key), now, gap) < n
    ensures AllSpaced(Record(history, key, now), n, gap)
  {
    var history' := Record(history, key, now);
    SpacedAppend(At(history, key), now, n, gap);
    forall k
      ensures Spaced(At(history', k), n, gap)
    {
      assert Spaced(At(history, k), n, gap);
      assert k != key ==> At(history', k) == At(history, k);
    }
  }

  lemma RecordBounded(b: Buckets, key: string, now: real, n: nat)
    requires Bounded(b, n) && |At(b, key)| < n
    ensures Bounded(Record(b, key, now), n)
  {
    var b' := Record(b, key, now);
    forall k
      ensures |At(b', k)| <= n
    {
      assert |At(b, k)| <= n;
      assert k != key ==> At(b', k) == At(b, k);
    }
  }

  /** Two stamps for each event, the first no later than the second. */
  ghost predicate Paired(born: Buckets, history: Buckets) {
    forall key :: NoLater(At(born, key), At(history, key))
  }

  ghost predicate NoLater(a: seq<real>, b: seq<real>) {
    |a| == |b| && forall i :: 0 <= i < |a| ==> a[i] <= b[i]
  }

  lemma RecordPaired(born: Buckets, history: Buckets, key: string, created: real, recorded: real)
    requires Paired(born, history) && created <= recorded
    ensures Paired(Record(born, key, created), Record(history, key, recorded))
  {
    var born', history' := Record(born, key, created), Record(history, key, recorded);
    forall k
      ensures NoLater(At(born', k), At(history', k))
    {
      assert NoLater(At(born, k), At(history, k));
      assert k != key ==> At(born', k) == At(born, k) && At(history', k) == At(history, k);
    }
  }

  /** Events stamped a first time after the check and a second time later: the
      first stamps are as far apart as the check demands of the second ones. */
  lemma FirstStampSpaced(born: seq<real>, times: seq<real>, checked: real, created: real, n: nat, gap: real)
    requires Sorted(times) && NoLater(born, times) && Spaced(born, n, gap)
    requires InWindow(times, checked, gap) < n && checked <= created
    ensures Spaced(born + [created], n, gap)
  {
    RecentIsTail(times, checked - gap);
    var b := born + [created];
    forall i, j | 0 <= i && i + n <= j < |b|
      ensures b[j] - b[i] >= gap
    {
      if j == |born| {
        assert i < |times| - InWindow(times, checked, gap);
        assert times[i] <= checked - gap;
      }
    }
  }

  lemma RecordFirstStamp(born: Buckets, history: Buckets, key: string, checked: real, created: real, n: nat, gap: real)
    requires Paired(born, history) && AllSpaced(born, n, gap) && Sorted(At(history, key))
    requires InWindow(At(history, key), checked, gap) < n && checked <= created
    ensures AllSpaced(Record(born, key, created), n, gap)
  {
    var born' := Record(born, key, created);
    FirstStampSpaced(At(born, key), At(history, key), checked, created, n, gap);
    forall k
      ensures Spaced(At(born', k), n, gap)
    {
      assert Spaced(At(born, k), n, gap);
      assert k != key ==> At(born', k) == At(born, k);
    }
  }

  lemma ReapTracks(b: Buckets, history: Buckets, cutoff: real, now: real, newCutoff: real, later: real)
    requires Tracks(b, history, cutoff, now) && cutoff <= newCutoff <= later && now <= later
    ensures Tracks(Reap(b, newCutoff), history, newCutoff, later)
  {
    forall key
      ensures At(Reap(b, newCutoff), key) == Recent(At(history, key), newCutoff)
    {
      RecentTwice(At(history, key), cutoff, newCutoff);
    }
  }

  lemma RecordTracks(b: Buckets, history: Buckets, cutoff: real, now: real, key: string)
    requires Tracks(b, history, cutoff, now) && cutoff < now
    ensures Tracks(Record(b, key, now), Record(history, key, now), cutoff, now)
  {
    var b', history' := Record(b, key, now), Record(history, key, now);
    forall k
      ensures Sorted(At(history', k)) && UpTo(At(history', k), now)
      ensures At(b', k) == Recent(At(history', k), cutoff)
    {
      if k == key {
        assert Sorted(At(history, key)) && UpTo(At(history, key), now);
        RecentAppend(At(history, key), now, cutoff);
      } else {
        assert At(history', k) == At(history, k) && At(b', k) == At(b, k);
      }
    }
  }

  lemma BucketSize(b: Buckets, history: Buckets, reaped: real, gap: real, now: real, key: string)
    requires Tracks(b, history, reaped - gap, now)
    ensures |At(b, key)| == InWindow(At(history, key), reaped, gap)
  {
    assert At(b, key) == Recent(At(history, key), reaped - gap);
  }

  lemma TracksLater(b: Buckets, history: Buckets, cutoff: real, now: real, later: real)
    requires Tracks(b, history, cutoff, now) && now <= later
    ensures Tracks(b, history, cutoff, later)
  {
    forall key
      ensures Sorted(At(history, key)) && UpTo(At(history, key), later)
    {
      assert Sorted(At(history, key)) && UpTo(At(history, key), now);
    }
  }

  /** No key is kept once its last event has left the window. */
  lemma NoStaleKey(b: Buckets, history: Buckets, cutoff: real, now: real, key: string)
    requires Tracks(b, history, cutoff, now)
    ensures key in b <==> exists t :: t in At(history, key) && t > cutoff
  {
    var times := At(history, key);
    RecentIsTail(times, cutoff);
    var r := Recent(times, cutoff);
    if key in b {
      assert At(b, key) == r && r != [];
      assert r[0] in times && r[0] > cutoff;
    }
  }
}

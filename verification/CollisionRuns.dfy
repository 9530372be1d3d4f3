/** Whole runs of the collision detector, and restarts in the middle of one. */
module CollisionRuns {
  import opened Options
  import opened Addresses
  import opened Collisions
  import opened Ordering

  datatype Call =
    | Observe(address: Parsed, link: Option<string>, key: Key, source: string, now: int)
    | KeysFor(address: Parsed, link: Option<string>, now: int)
    | Snapshot(now: int)

  datatype Answer = Seen(observation: Observation) | Keys(keys: Option<seq<Key>>) | Rows(table: Option<Claims>)

  ghost function Do(t: Table, c: Call): (Table, Answer) {
    match c
    case Observe(a, link, k, source, now) =>
      var r := Observed(t, Normalize(a, link), k, source, now);
      (r.0, Seen(r.1))
    case KeysFor(a, link, now) => var r := Queried(t, Normalize(a, link), now); (r.0, Keys(r.1))
    case Snapshot(now) => var r := Saved(t, now); (r.0, Rows(r.1))
  }

  /** The answers to a list of calls, and the table after them. */
  ghost function Run(t: Table, calls: seq<Call>): (r: (Table, seq<Answer>))
    ensures |r.1| == |calls|
    decreases |calls|
  {
    if calls == [] then (t, [])
    else
      var first := Do(t, calls[0]);
      var rest := Run(first.0, calls[1..]);
      (rest.0, [first.1] + rest.1)
  }

  /** Nothing that happens from `now` on can tell the two tables apart. */
  ghost predicate Alike(t: Table, u: Table, now: nat) {
    t == u ||
    (&& t.maxAddresses == u.maxAddresses && t.maxKeys == u.maxKeys
     && Latest(t.last) <= now && Latest(u.last) <= now
     && Active(t.claims, now) == Active(u.claims, now))
  }

  /** Only the live claims decide an observation. */
  lemma ObservedAlike(t: Table, u: Table, a: Option<Address>, k: Key, source: string, now: int)
    requires t.maxAddresses == u.maxAddresses && t.maxKeys == u.maxKeys
    requires now >= 0 && Latest(t.last) <= now && Latest(u.last) <= now
    requires Active(t.claims, now) == Active(u.claims, now)
    ensures Observed(t, a, k, source, now).1 == Observed(u, a, k, source, now).1
    ensures (Observed(t, a, k, source, now).0 == t && Observed(u, a, k, source, now).0 == u) ||
            Observed(t, a, k, source, now).0 == Observed(u, a, k, source, now).0
  {
    hide Active, Put, WellFormed, Sorted, At;
  }

  lemma {:induction false} AlikeStep(t: Table, u: Table, now: nat, c: Call)
    requires Alike(t, u, now) && c.now >= now
    ensures Do(t, c).1 == Do(u, c).1 && Alike(Do(t, c).0, Do(u, c).0, now)
    ensures (Do(t, c).0 == t && Do(u, c).0 == u) || Do(t, c).0 == Do(u, c).0
  {
    hide Active, Put, Normalize, Observed, Sorted, At;
    if t != u {
      ActiveTwice(t.claims, now, c.now);
      ActiveTwice(u.claims, now, c.now);
      if c.Observe? {
        ObservedAlike(t, u, Normalize(c.address, c.link), c.key, c.source, c.now);
      }
    }
  }

  lemma {:induction false} AlikeRun(t: Table, u: Table, now: nat, calls: seq<Call>)
    requires Alike(t, u, now) && forall i :: 0 <= i < |calls| ==> calls[i].now >= now
    ensures Run(t, calls).1 == Run(u, calls).1 && Alike(Run(t, calls).0, Run(u, calls).0, now)
    decreases |calls|
  {
    hide Do, Alike;
    if calls != [] {
      AlikeStep(t, u, now, calls[0]);
      AlikeRun(Do(t, calls[0]).0, Do(u, calls[0]).0, now, calls[1..]);
    }
  }

  /** A detector that went on from a snapshot and one restarted from it at a
      later time give the same answers to every later list of calls. If the
      first is moved on to that time too, the two are in the same state and
      agree on every list of calls whatever. */
  lemma RestartAgrees(before: Table, evidence: set<Claim>, document: Document, now: nat, calls: seq<Call>)
    requires var t := Advanced(before, document.last);
             && document.version == SNAPSHOT_VERSION && Lists(document.rows, t.claims)
             && document.maxAddresses == before.maxAddresses > 0 && document.maxKeys == before.maxKeys > 0
             && Fits(t.claims, before.maxAddresses, before.maxKeys)
             && Reflects(t.claims, evidence, document.last)
    requires document.last <= now <= MAX_SECONDS
    ensures Restored(document, now).Some?
    ensures var t := Advanced(before, document.last);
            var u := Table(document.maxAddresses, document.maxKeys, Restored(document, now).value, Some(now));
            && Advanced(t, now) == u
            && Run(Advanced(t, now), calls) == Run(u, calls)
            && ((forall i :: 0 <= i < |calls| ==> calls[i].now >= now) ==>
                  Run(t, calls).1 == Run(u, calls).1 && Alike(Run(t, calls).0, Run(u, calls).0, now))
  {
    hide Active, Do;
    RestartExact(before.claims, evidence, document, now);
    var t := Advanced(before, document.last);
    var u := Table(document.maxAddresses, document.maxKeys, Restored(document, now).value, Some(now));
    ActiveTwice(before.claims, document.last, now);
    ActiveTwice(before.claims, now, now);
    if forall i :: 0 <= i < |calls| ==> calls[i].now >= now {
      AlikeRun(t, u, now, calls);
    }
  }
}

/** The simulator LoRa driver's concurrency: a compare-and-swap modem lock, two
    binary semaphores, a callback pointer behind a spinlock, any number of
    calling threads and one RX thread. Each step below is one atomic action;
    everything else between steps is interleaved freely. A socket exchange is
    a critical section with an arbitrary outcome. */
module RxDriver {

  const MAX_FAILURES: nat := 10

  /** Where a calling thread is. */
  datatype Caller =
    | Outside
    | Syncing                 // send or recv: modem held, exchange on the socket
    | Arming                  // recv_async(cb): modem held, token not yet taken
    | Refused                 // recv_async(cb): token not free, modem to release
    | Armed                   // recv_async(cb): modem and token held
    | Published               // recv_async(cb): callback stored, rx_go to give
    | Cancelling(arm: nat)    // recv_async(NULL): found this arm, waits for rx_idle
    | Cancelled(arm: nat)     // recv_async(NULL): took rx_idle, gives it back

  /** Where the RX thread is. */
  datatype Receiver =
    | Parked
    | Deciding(failures: nat)
    | Receiving(failures: nat)
    | Rechecking
    | Calling(arm: nat)
    | Disarming
    | Releasing
    | Signalling

  datatype Callback = NoCallback | Callback(arm: nat)

  /** `arms` numbers the callbacks stored so far; `retired` is the last one a
      finished cancel has put out of service. */
  datatype State = State(
    modem: int, go: nat, idle: nat, callback: Callback, started: bool,
    callers: map<nat, Caller>, receiver: Receiver, arms: nat, retired: nat)

  function Init(): (s: State) {
    State(0, 0, 1, NoCallback, false, map[], Parked, 0, 0)
  }

  function At(s: State, t: nat): (c: Caller) {
    if t in s.callers then s.callers[t] else Outside
  }

  function Goto(s: State, t: nat, c: Caller): (r: State) {
    s.(callers := s.callers[t := c])
  }

  datatype Step =
    | SyncAcquire(t: nat) | SyncRelease(t: nat)
    | ArmAcquire(t: nat) | ArmTake(t: nat) | ArmGiveUp(t: nat) | ArmPublish(t: nat) | ArmGo(t: nat)
    | Cancel(t: nat) | CancelTake(t: nat) | CancelTimeout(t: nat) | CancelGive(t: nat)
    | RxGo | RxDecide | RxFail | RxNothing | RxPacket | RxRecheck
    | RxCancel | RxReturn | RxDisarm | RxRelease | RxSignal

  /** Compare-and-swap 0 to 1 on the modem; a failed one leaves the caller
      outside with -EBUSY. */
  function Acquire(s: State, t: nat, c: Caller): (r: State) {
    if s.modem == 0 then Goto(s.(modem := 1), t, c) else s
  }

  predicate Enabled(s: State, e: Step) {
    match e
    case SyncAcquire(t) => At(s, t) == Outside
    case SyncRelease(t) => At(s, t) == Syncing
    case ArmAcquire(t) => At(s, t) == Outside
    case ArmTake(t) => At(s, t) == Arming
    case ArmGiveUp(t) => At(s, t) == Refused
    case ArmPublish(t) => At(s, t) == Armed
    case ArmGo(t) => At(s, t) == Published
    case Cancel(t) => At(s, t) == Outside
    case CancelTake(t) => At(s, t).Cancelling? && s.idle > 0
    case CancelTimeout(t) => At(s, t).Cancelling?
    case CancelGive(t) => At(s, t).Cancelled?
    case RxGo => s.started && s.receiver == Parked && s.go > 0
    case RxDecide => s.receiver.Deciding?
    case RxFail => s.receiver.Receiving?
    case RxNothing => s.receiver.Receiving?
    case RxPacket => s.receiver.Receiving?
    case RxRecheck => s.receiver == Rechecking
    case RxCancel => s.receiver.Calling?
    case RxReturn => s.receiver.Calling?
    case RxDisarm => s.receiver == Disarming
    case RxRelease => s.receiver == Releasing
    case RxSignal => s.receiver == Signalling
  }

  /** k_sem_give on a semaphore with limit 1. */
  function Give(count: nat): (r: nat)
    ensures r <= 1 || r == count
  {
    if count < 1 then count + 1 else count
  }

  function Next(s: State, e: Step): (r: State)
    requires Enabled(s, e)
  {
    match e
    case SyncAcquire(t) => Acquire(s, t, Syncing)
    case SyncRelease(t) => Goto(s.(modem := s.modem - 1), t, Outside)
    case ArmAcquire(t) => Acquire(s, t, Arming)
    case ArmTake(t) =>
      if s.idle > 0 then Goto(s.(idle := s.idle - 1), t, Armed) else Goto(s, t, Refused)
    case ArmGiveUp(t) => Goto(s.(modem := s.modem - 1), t, Outside)
    case ArmPublish(t) =>
      Goto(s.(started := true, arms := s.arms + 1, callback := Callback(s.arms + 1)), t, Published)
    case ArmGo(t) => Goto(s.(go := Give(s.go)), t, Outside)
    case Cancel(t) =>
      if s.callback == NoCallback then s
      else Goto(s.(callback := NoCallback), t, Cancelling(s.callback.arm))
    case CancelTake(t) =>
      Goto(s.(idle := s.idle - 1, retired := s.arms), t, Cancelled(At(s, t).arm))
    case CancelTimeout(t) => Goto(s, t, Outside)
    case CancelGive(t) => Goto(s.(idle := Give(s.idle)), t, Outside)
    case RxGo => s.(go := s.go - 1, receiver := Deciding(0))
    case RxDecide =>
      s.(receiver := if s.callback == NoCallback then Disarming
                     else Receiving(s.receiver.failures))
    case RxFail =>
      var failures := s.receiver.failures + 1;
      s.(receiver := if failures >= MAX_FAILURES then Disarming else Deciding(failures))
    case RxNothing => s.(receiver := Deciding(0))
    case RxPacket => s.(receiver := Rechecking)
    case RxRecheck =>
      s.(receiver := if s.callback == NoCallback then Disarming else Calling(s.callback.arm))
    case RxCancel => s.(callback := NoCallback)
    case RxReturn => s.(receiver := Deciding(0))
    case RxDisarm => s.(callback := NoCallback, receiver := Releasing)
    case RxRelease => s.(modem := s.modem - 1, receiver := Signalling)
    case RxSignal => s.(idle := Give(s.idle), receiver := Parked)
  }

  // ------------------------------------------------------------- ownership

  datatype Party = Thread(t: nat) | Rx

  /** Who owes a release of the modem. */
  predicate HoldsModem(s: State, p: Party) {
    match p
    case Thread(t) => At(s, t) in {Syncing, Arming, Refused, Armed, Published}
    case Rx => s.go > 0 || !(s.receiver == Parked || s.receiver == Signalling)
  }

  /** Who owes a give of rx_idle. */
  predicate HoldsToken(s: State, p: Party) {
    match p
    case Thread(t) => At(s, t) in {Armed, Published} || At(s, t).Cancelled?
    case Rx => s.go > 0 || s.receiver != Parked
  }

  datatype Holder = Nobody | By(party: Party)

  /** The modem counter is one exactly while somebody owes its release. */
  ghost predicate ModemHeldBy(s: State, h: Holder) {
    s.modem == (if h.By? then 1 else 0) && forall p :: HoldsModem(s, p) <==> h == By(p)
  }

  /** The rx_idle token is in the semaphore or with exactly one party. */
  ghost predicate TokenHeldBy(s: State, h: Holder) {
    s.idle == (if h.By? then 0 else 1) && forall p :: HoldsToken(s, p) <==> h == By(p)
  }

  /** A stored callback has been published and not been disarmed. */
  predicate Serving(s: State) {
    s.go > 0 || !(s.receiver == Parked || s.receiver == Releasing || s.receiver == Signalling)
  }

  ghost predicate CallbackSound(s: State) {
    && s.go <= 1 && (s.go > 0 ==> s.receiver == Parked && s.started)
    && (s.callback.Callback? ==>
          s.callback.arm == s.arms && (Serving(s) || exists t :: At(s, t) == Published))
    && (s.receiver.Calling? ==> s.receiver.arm == s.arms)
    && s.retired <= s.arms && (Serving(s) ==> s.retired < s.arms)
    && (forall t :: At(s, t) == Published ==> s.retired < s.arms && s.started)
    && (forall t :: At(s, t).Cancelled? ==> At(s, t).arm <= s.retired)
    && (forall t :: At(s, t).Cancelling? ==> At(s, t).arm <= s.arms)
  }

  ghost predicate Inv(s: State) {
    (exists m :: ModemHeldBy(s, m)) && (exists k :: TokenHeldBy(s, k)) && CallbackSound(s)
  }

  // ------------------------------------------------------- each step keeps

  lemma ModemStep(s: State, e: Step, m: Holder) returns (m': Holder)
    requires Enabled(s, e) && ModemHeldBy(s, m) && CallbackSound(s)
    ensures ModemHeldBy(Next(s, e), m')
  {
    match e
    case SyncAcquire(t) => m' := if s.modem == 0 then By(Thread(t)) else m;
    case ArmAcquire(t) => m' := if s.modem == 0 then By(Thread(t)) else m;
    case SyncRelease(t) =>
      assert HoldsModem(s, Thread(t));
      m' := Nobody;
    case ArmGiveUp(t) =>
      assert HoldsModem(s, Thread(t));
      m' := Nobody;
    case ArmGo(t) =>
      assert HoldsModem(s, Thread(t));
      assert !HoldsModem(s, Rx);
      m' := By(Rx);
    case RxRelease =>
      assert HoldsModem(s, Rx);
      m' := Nobody;
    case _ =>
      ModemKept(s, e, m);
      m' := m;
  }

  /** The other steps leave every owner of the modem what it was. */
  lemma ModemKept(s: State, e: Step, m: Holder)
    requires Enabled(s, e) && ModemHeldBy(s, m) && CallbackSound(s)
    requires !e.SyncAcquire? && !e.ArmAcquire? && !e.SyncRelease? && !e.ArmGiveUp? && !e.ArmGo? && !e.RxRelease?
    ensures ModemHeldBy(Next(s, e), m)
  {
    var r := Next(s, e);
    assert r.modem == s.modem;
    forall p
      ensures HoldsModem(r, p) <==> HoldsModem(s, p)
    {
    }
  }

  lemma TokenStep(s: State, e: Step, k: Holder) returns (k': Holder)
    requires Enabled(s, e) && TokenHeldBy(s, k) && CallbackSound(s)
    ensures TokenHeldBy(Next(s, e), k')
  {
    match e
    case ArmTake(t) => k' := if s.idle > 0 then By(Thread(t)) else k;
    case CancelTake(t) => k' := By(Thread(t));
    case CancelGive(t) =>
      assert HoldsToken(s, Thread(t));
      k' := Nobody;
    case ArmGo(t) =>
      assert HoldsToken(s, Thread(t));
      assert !HoldsToken(s, Rx);
      k' := By(Rx);
    case RxSignal =>
      assert HoldsToken(s, Rx);
      k' := Nobody;
    case _ =>
      TokenKept(s, e, k);
      k' := k;
  }

  /** And of the token. */
  lemma TokenKept(s: State, e: Step, k: Holder)
    requires Enabled(s, e) && TokenHeldBy(s, k) && CallbackSound(s)
    requires !e.ArmTake? && !e.CancelTake? && !e.CancelGive? && !e.ArmGo? && !e.RxSignal?
    ensures TokenHeldBy(Next(s, e), k)
  {
    var r := Next(s, e);
    assert r.idle == s.idle;
    forall p
      ensures HoldsToken(r, p) <==> HoldsToken(s, p)
    {
    }
  }

  lemma CallbackStep(s: State, e: Step, m: Holder, k: Holder)
    requires Enabled(s, e) && ModemHeldBy(s, m) && TokenHeldBy(s, k) && CallbackSound(s)
    ensures CallbackSound(Next(s, e))
  {
    match e
    case ArmPublish(t) => PublishSound(s, t, k);
    case ArmGo(t) => GoSound(s, t, k);
    case Cancel(t) => CancelSound(s, t);
    case CancelTake(t) => CancelTakeSound(s, t, k);
    case SyncAcquire(t) => QuietSound(s, e, t);
    case SyncRelease(t) => QuietSound(s, e, t);
    case ArmAcquire(t) => QuietSound(s, e, t);
    case ArmTake(t) => QuietSound(s, e, t);
    case ArmGiveUp(t) => QuietSound(s, e, t);
    case CancelTimeout(t) => QuietSound(s, e, t);
    case CancelGive(t) => QuietSound(s, e, t);
    case _ => RxSound(s, e);
  }

  lemma QuietSound(s: State, e: Step, t: nat)
    requires Enabled(s, e) && CallbackSound(s)
    requires e in {SyncAcquire(t), SyncRelease(t), ArmAcquire(t), ArmTake(t), ArmGiveUp(t),
                   CancelTimeout(t), CancelGive(t)}
    ensures CallbackSound(Next(s, e))
  {
    var r := Next(s, e);
    assert forall u :: u != t ==> At(r, u) == At(s, u);
    assert At(s, t) != Published;
    assert forall u :: At(s, u) == Published ==> At(r, u) == Published;
  }

  lemma RxSound(s: State, e: Step)
    requires Enabled(s, e) && CallbackSound(s)
    requires e in {RxGo, RxDecide, RxFail, RxNothing, RxPacket, RxRecheck, RxCancel, RxReturn,
                   RxDisarm, RxRelease, RxSignal}
    ensures CallbackSound(Next(s, e))
  {
    var r := Next(s, e);
    assert forall u :: At(r, u) == At(s, u);
  }

  lemma PublishSound(s: State, t: nat, k: Holder)
    requires At(s, t) == Armed && TokenHeldBy(s, k) && CallbackSound(s)
    ensures CallbackSound(Next(s, ArmPublish(t)))
  {
    var r := Next(s, ArmPublish(t));
    assert HoldsToken(s, Thread(t)) && !HoldsToken(s, Rx);
    assert forall u :: u != t ==> At(r, u) == At(s, u);
    assert At(r, t) == Published;
  }

  lemma GoSound(s: State, t: nat, k: Holder)
    requires At(s, t) == Published && TokenHeldBy(s, k) && CallbackSound(s)
    ensures CallbackSound(Next(s, ArmGo(t)))
  {
    var r := Next(s, ArmGo(t));
    assert HoldsToken(s, Thread(t)) && !HoldsToken(s, Rx);
    assert forall u :: u != t ==> At(r, u) == At(s, u);
  }

  lemma CancelSound(s: State, t: nat)
    requires At(s, t) == Outside && CallbackSound(s)
    ensures CallbackSound(Next(s, Cancel(t)))
  {
    var r := Next(s, Cancel(t));
    assert forall u :: u != t ==> At(r, u) == At(s, u);
  }

  /** When a cancel gets the token the driver is quiet: nothing stored, nothing
      under way, no callback running. */
  lemma CancelTakeQuiet(s: State, t: nat, k: Holder)
    requires At(s, t).Cancelling? && s.idle > 0 && TokenHeldBy(s, k) && CallbackSound(s)
    ensures s.receiver == Parked && s.go == 0 && s.callback == NoCallback
    ensures forall u :: At(s, u) !in {Armed, Published}
  {
    assert !HoldsToken(s, Rx);
    forall u
      ensures At(s, u) !in {Armed, Published}
    {
      assert !HoldsToken(s, Thread(u));
    }
  }

  lemma CancelTakeSound(s: State, t: nat, k: Holder)
    requires At(s, t).Cancelling? && s.idle > 0 && TokenHeldBy(s, k) && CallbackSound(s)
    ensures CallbackSound(Next(s, CancelTake(t)))
  {
    CancelTakeQuiet(s, t, k);
    var r := Next(s, CancelTake(t));
    assert forall u :: u != t ==> At(r, u) == At(s, u);
  }

  lemma StepInv(s: State, e: Step)
    requires Enabled(s, e) && Inv(s)
    ensures Inv(Next(s, e))
    ensures Next(s, e).retired >= s.retired
  {
    var m :| ModemHeldBy(s, m);
    var k :| TokenHeldBy(s, k);
    var m' := ModemStep(s, e, m);
    var k' := TokenStep(s, e, k);
    CallbackStep(s, e, m, k);
  }

  // ----------------------------------------------------------------- runs

  /** Steps that are not enabled do nothing. */
  function Run(s: State, steps: seq<Step>): (r: State)
    decreases |steps|
  {
    if steps == [] then s
    else Run(if Enabled(s, steps[0]) then Next(s, steps[0]) else s, steps[1..])
  }

  lemma InitInv()
    ensures Inv(Init())
  {
    assert ModemHeldBy(Init(), Nobody);
    assert TokenHeldBy(Init(), Nobody);
  }

  lemma {:induction false} RunInv(s: State, steps: seq<Step>)
    requires Inv(s)
    ensures Inv(Run(s, steps)) && Run(s, steps).retired >= s.retired
    decreases |steps|
  {
    hide Inv;
    hide Next;
    hide Enabled;
    if steps != [] {
      if Enabled(s, steps[0]) {
        StepInv(s, steps[0]);
        RunInv(Next(s, steps[0]), steps[1..]);
      } else {
        RunInv(s, steps[1..]);
      }
    }
  }

  /** In every interleaving: at most one party owns the modem, the counter says
      whether one does, the rx_idle token is never lost or doubled, and no
      synchronous exchange overlaps another or an RX window. */
  lemma ModemExclusive(steps: seq<Step>, p: Party, q: Party)
    ensures var s := Run(Init(), steps);
            && (HoldsModem(s, p) && HoldsModem(s, q) ==> p == q)
            && (s.modem == 0 || s.modem == 1) && (HoldsModem(s, p) ==> s.modem == 1)
            && (HoldsToken(s, p) && HoldsToken(s, q) ==> p == q)
            && (s.idle == 0 || s.idle == 1) && (HoldsToken(s, p) ==> s.idle == 0)
            && (p.Thread? && At(s, p.t) == Syncing ==>
                  !s.receiver.Receiving? &&
                  (q.Thread? && At(s, q.t) == Syncing ==> p == q))
            && (s.modem == 1 ==> exists owner :: HoldsModem(s, owner))
            && (s.idle == 0 ==> exists owner :: HoldsToken(s, owner))
  {
    InitInv();
    RunInv(Init(), steps);
    var s := Run(Init(), steps);
    var m :| ModemHeldBy(s, m);
    var k :| TokenHeldBy(s, k);
    assert HoldsModem(s, Rx) <==> m == By(Rx);
    assert m.By? ==> HoldsModem(s, m.party);
    assert k.By? ==> HoldsToken(s, k.party);
  }

  /** Once a cancel that found an armed callback has returned 0, that callback
      is not running and is never called again, whatever happens afterwards. */
  lemma CancelIsFinal(before: seq<Step>, t: nat, after: seq<Step>)
    requires At(Run(Init(), before), t).Cancelled?
    ensures var s := Run(Init(), before);
            var later := Run(s, after);
            later.receiver.Calling? ==> later.receiver.arm > At(s, t).arm
  {
    InitInv();
    RunInv(Init(), before);
    var s := Run(Init(), before);
    RunInv(s, after);
  }

  /** At the moment a cancel obtains the token nothing is in flight. */
  lemma CancelQuiesces(before: seq<Step>, t: nat)
    requires Enabled(Run(Init(), before), CancelTake(t))
    ensures var s := Run(Init(), before);
            s.receiver == Parked && s.go == 0 && s.callback == NoCallback
  {
    InitInv();
    RunInv(Init(), before);
    var s := Run(Init(), before);
    var k :| TokenHeldBy(s, k);
    CancelTakeQuiet(s, t, k);
  }

  // -------------------------------------------------- a cancel that succeeds

  /** Thread 0 arms, thread 1 cancels, the RX thread notices and parks. */
  function Example(): seq<Step> {
    [ArmAcquire(0), ArmTake(0), ArmPublish(0), ArmGo(0), Cancel(1)] +
    [RxGo, RxDecide, RxDisarm, RxRelease, RxSignal, CancelTake(1)]
  }

  lemma RunOne(s: State, steps: seq<Step>)
    requires steps != [] && Enabled(s, steps[0])
    ensures Run(s, steps) == Run(Next(s, steps[0]), steps[1..])
  {
  }

  lemma CancelHappens()
    ensures At(Run(Init(), Example()), 1) == Cancelled(1)
  {
    hide Run;
    var e := Example();
    var cs := map[0 := Arming][0 := Armed][0 := Published][0 := Outside];
    RunOne(Init(), e);
    RunOne(State(1, 0, 1, NoCallback, false, map[0 := Arming], Parked, 0, 0), e[1..]);
    RunOne(State(1, 0, 0, NoCallback, false, map[0 := Arming][0 := Armed], Parked, 0, 0), e[2..]);
    RunOne(State(1, 0, 0, Callback(1), true, map[0 := Arming][0 := Armed][0 := Published], Parked, 1, 0), e[3..]);
    RunOne(State(1, 1, 0, Callback(1), true, cs, Parked, 1, 0), e[4..]);
    RestOfExample(cs, e[5..]);
  }

  lemma RestOfExample(callers: map<nat, Caller>, steps: seq<Step>)
    requires steps == [RxGo, RxDecide, RxDisarm, RxRelease, RxSignal, CancelTake(1)]
    ensures var s := State(1, 1, 0, NoCallback, true, callers[1 := Cancelling(1)], Parked, 1, 0);
            At(Run(s, steps), 1) == Cancelled(1)
  {
    hide Run;
    var s := State(1, 1, 0, NoCallback, true, callers[1 := Cancelling(1)], Parked, 1, 0);
    RunOne(s, steps);
    RunOne(s.(go := 0, receiver := Deciding(0)), steps[1..]);
    RunOne(s.(go := 0, receiver := Disarming), steps[2..]);
    RunOne(s.(go := 0, receiver := Releasing), steps[3..]);
    RunOne(s.(go := 0, modem := 0, receiver := Signalling), steps[4..]);
    var parked := s.(go := 0, modem := 0, idle := 1);
    RunOne(parked, steps[5..]);
    RunNone(Next(parked, CancelTake(1)), steps[6..]);
  }

  lemma RunNone(s: State, steps: seq<Step>)
    requires steps == []
    ensures Run(s, steps) == s
  {
  }
}

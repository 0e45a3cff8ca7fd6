/** The Windows reader/writer lock of thr_rwlock.h as a machine of any number of threads, interleaved one C
    statement at a time under sequential consistency. The operating system's slim lock records no owners and
    is modelled by its contract: an acquire waits for the mode it needs, a try may fail, and a release in a
    mode the lock is not held in is a misuse. The only client rule is that a thread unlocks only what it
    holds. */
module RwLock {

  datatype Srw = Free | Shared(count: nat) | Exclusive | Misused

  datatype Op = RdLock | TryRdLock | WrLock | TryWrLock | Unlock {
    predicate Reads() { RdLock? || TryRdLock? }
    predicate Try() { TryRdLock? || TryWrLock? }
  }

  datatype Code = Success | EBusy

  // The statement a thread is about to execute.
  datatype Pc =
    | Idle
    | AtAcquire
    | AtSetFlag
    | AtTestFlag
    | AtClearFlag
    | AtRelease(exclusive: bool)
    | AtReturn(code: Code)

  // What a client knows it holds. Read locks may be taken repeatedly.
  datatype Holding = Holding(shares: nat, writes: bool)

  const NOTHING := Holding(0, false)

  // A thread: its statement, its current call, what it held when that call began and what it holds now.
  datatype Thread = Thread(pc: Pc, op: Op, entry: Holding, held: Holding)

  datatype State = State(srwlock: Srw, haveExclusive: bool, threads: seq<Thread>)

  // A thread begins a call, or executes its next statement; `granted` is the outcome of a try.
  datatype Event = Begin(t: nat, op: Op) | Exec(t: nat, granted: bool)

  predicate Initial(s: State) {
    && s.srwlock == Free
    && !s.haveExclusive
    && forall t :: 0 <= t < |s.threads| ==> s.threads[t].pc == Idle && s.threads[t].held == NOTHING
  }

  // ---------- the slim lock ----------

  predicate Available(l: Srw, op: Op) {
    if op.Reads() then l.Free? || l.Shared? else l.Free?
  }

  function Acquired(l: Srw, op: Op): Srw {
    if !op.Reads() then Exclusive else if l.Shared? then Shared(l.count + 1) else Shared(1)
  }

  function Released(l: Srw, exclusive: bool): Srw {
    match l
    case Exclusive => if exclusive then Free else Misused
    case Shared(n) => if exclusive then Misused else if n > 1 then Shared(n - 1) else Free
    case _ => Misused
  }

  // ---------- the machine ----------

  predicate Enabled(s: State, e: Event) {
    && e.t < |s.threads|
    && var th := s.threads[e.t];
       match e
       case Begin(_, op) => th.pc == Idle && (op.Unlock? ==> th.held != NOTHING)
       case Exec(_, granted) =>
         && th.pc != Idle
         && (th.pc == AtAcquire ==> Available(s.srwlock, th.op) || (th.op.Try() && !granted))
  }

  function Apply(s: State, e: Event): State
    requires Enabled(s, e)
  {
    var th := s.threads[e.t];
    match e
    case Begin(t, op) =>
      With(s, t, Thread(if op.Unlock? then AtTestFlag else AtAcquire, op, th.held, th.held))
    case Exec(t, granted) =>
      match th.pc
      case Idle => s
      case AtAcquire =>
        if th.op.Try() && !granted then With(s, t, th.(pc := AtReturn(EBusy)))
        else if th.op.Reads() then
          With(s.(srwlock := Acquired(s.srwlock, th.op)), t,
               th.(pc := AtReturn(Success), held := Holding(th.held.shares + 1, th.held.writes)))
        else
          With(s.(srwlock := Acquired(s.srwlock, th.op)), t,
               th.(pc := AtSetFlag, held := Holding(th.held.shares, true)))
      case AtSetFlag =>
        With(s.(haveExclusive := true), t, th.(pc := AtReturn(Success)))
      case AtTestFlag =>
        With(s, t, th.(pc := if s.haveExclusive then AtClearFlag else AtRelease(false)))
      case AtClearFlag =>
        With(s.(haveExclusive := false), t, th.(pc := AtRelease(true)))
      case AtRelease(exclusive) =>
        With(s.(srwlock := Released(s.srwlock, exclusive)), t,
             th.(pc := AtReturn(Success), held := Dropped(th.held, exclusive)))
      case AtReturn(_) =>
        With(s, t, th.(pc := Idle))
  }

  function With(s: State, t: nat, th: Thread): State
    requires t < |s.threads|
  {
    s.(threads := s.threads[t := th])
  }

  // The holding after the release call the code chose.
  function Dropped(h: Holding, exclusive: bool): Holding {
    if exclusive then Holding(h.shares, false)
    else Holding(if h.shares > 0 then h.shares - 1 else 0, h.writes)
  }

  ghost predicate IsRun(states: seq<State>, events: seq<Event>) {
    && |states| == |events| + 1
    && Initial(states[0])
    && forall i :: 0 <= i < |events| ==> Enabled(states[i], events[i]) && states[i + 1] == Apply(states[i], events[i])
  }

  // ---------- the promise of each call ----------

  /** What a client may conclude from a call that returned: what it held before, the code, what it holds now. */
  predicate Outcome(op: Op, before: Holding, code: Code, after: Holding) {
    match op
    case RdLock => code == Success && !before.writes && after == Holding(before.shares + 1, false)
    case TryRdLock =>
      if code == Success then !before.writes && after == Holding(before.shares + 1, false) else after == before
    case WrLock => code == Success && before == NOTHING && after == Holding(0, true)
    case TryWrLock =>
      if code == Success then before == NOTHING && after == Holding(0, true) else after == before
    case Unlock => code == Success && before != NOTHING && after == ReleaseOwn(before)
  }

  // Giving up a lock in the mode it is held in.
  function ReleaseOwn(h: Holding): Holding {
    if h.writes then NOTHING else Holding(if h.shares > 0 then h.shares - 1 else 0, false)
  }

  // ---------- the invariant ----------

  predicate OwnsFlag(th: Thread) {
    th.held.writes && th.pc != AtSetFlag && th.pc != AtRelease(true)
  }

  datatype Measure = Readers | Writers | FlagOwners

  function Weight(k: Measure, th: Thread): nat {
    match k
    case Readers => th.held.shares
    case Writers => if th.held.writes then 1 else 0
    case FlagOwners => if OwnsFlag(th) then 1 else 0
  }

  function Total(k: Measure, threads: seq<Thread>): nat {
    if threads == [] then 0 else Weight(k, threads[0]) + Total(k, threads[1..])
  }

  predicate LockMatches(l: Srw, readers: nat, writers: nat) {
    match l
    case Free => readers == 0 && writers == 0
    case Shared(n) => readers == n && n > 0 && writers == 0
    case Exclusive => readers == 0 && writers == 1
    case Misused => false
  }

  predicate ThreadOk(th: Thread) {
    && (th.held.writes ==> th.held.shares == 0)
    && match th.pc
       case Idle => true
       case AtAcquire => !th.op.Unlock? && th.held == th.entry
       case AtSetFlag => (th.op.WrLock? || th.op.TryWrLock?) && th.entry == NOTHING && th.held == Holding(0, true)
       case AtTestFlag => th.op.Unlock? && th.held == th.entry != NOTHING
       case AtClearFlag => th.op.Unlock? && th.held == th.entry == Holding(0, true)
       case AtRelease(exclusive) => th.op.Unlock? && th.held == th.entry != NOTHING && exclusive == th.held.writes
       case AtReturn(code) => Outcome(th.op, th.entry, code, th.held)
  }

  predicate CountsMatch(s: State) {
    LockMatches(s.srwlock, Total(Readers, s.threads), Total(Writers, s.threads))
  }

  predicate Inv(s: State) {
    && CountsMatch(s)
    && Total(FlagOwners, s.threads) == (if s.haveExclusive then 1 else 0)
    && forall t :: 0 <= t < |s.threads| ==> ThreadOk(s.threads[t])
  }

  lemma {:induction false} TotalUpdate(k: Measure, threads: seq<Thread>, t: nat, th: Thread)
    requires t < |threads|
    ensures Total(k, threads[t := th]) == Total(k, threads) - Weight(k, threads[t]) + Weight(k, th)
    ensures Weight(k, threads[t]) <= Total(k, threads)
  {
    if t > 0 {
      TotalUpdate(k, threads[1..], t - 1, th);
      assert threads[t := th][1..] == threads[1..][t - 1 := th];
    } else {
      assert threads[t := th][1..] == threads[1..];
    }
  }

  // Two different threads' weights both fit in the total.
  lemma {:induction false} TotalCoversTwo(k: Measure, threads: seq<Thread>, a: nat, b: nat)
    requires a < b < |threads|
    ensures Weight(k, threads[a]) + Weight(k, threads[b]) <= Total(k, threads)
  {
    if a > 0 {
      TotalCoversTwo(k, threads[1..], a - 1, b - 1);
    } else {
      TotalUpdate(k, threads[1..], b - 1, threads[b]);
    }
  }

  lemma {:induction false} TotalIsZero(k: Measure, threads: seq<Thread>)
    requires forall t :: 0 <= t < |threads| ==> Weight(k, threads[t]) == 0
    ensures Total(k, threads) == 0
  {
    if threads != [] { TotalIsZero(k, threads[1..]); }
  }

  lemma {:induction false} TotalHasWitness(k: Measure, threads: seq<Thread>) returns (t: nat)
    requires Total(k, threads) > 0
    ensures t < |threads| && Weight(k, threads[t]) > 0
  {
    if Weight(k, threads[0]) > 0 {
      t := 0;
    } else {
      t := TotalHasWitness(k, threads[1..]);
      t := t + 1;
    }
  }

  lemma InitialInv(s: State)
    requires Initial(s)
    ensures Inv(s)
  {
    TotalIsZero(Readers, s.threads);
    TotalIsZero(Writers, s.threads);
    TotalIsZero(FlagOwners, s.threads);
  }

  // The stepping thread stays within its statement's rule; nobody else's record changes.
  lemma StepThreadOk(s: State, e: Event)
    requires Inv(s) && Enabled(s, e)
    ensures forall t :: 0 <= t < |s.threads| ==> ThreadOk(Apply(s, e).threads[t])
  {
    assert ThreadOk(s.threads[e.t]);
    FlagTellsMode(s, e.t);
    if e.Exec? && s.threads[e.t].pc == AtAcquire && Available(s.srwlock, s.threads[e.t].op) {
      TotalUpdate(Readers, s.threads, e.t, s.threads[e.t]);
      TotalUpdate(Writers, s.threads, e.t, s.threads[e.t]);
    }
  }

  lemma AcquireMatches(s: State, e: Event)
    requires Inv(s) && Enabled(s, e) && e.Exec? && s.threads[e.t].pc == AtAcquire
    ensures CountsMatch(Apply(s, e))
  {
    assert ThreadOk(s.threads[e.t]);
    TotalUpdate(Readers, s.threads, e.t, Apply(s, e).threads[e.t]);
    TotalUpdate(Writers, s.threads, e.t, Apply(s, e).threads[e.t]);
  }

  lemma ReleaseMatches(s: State, e: Event)
    requires Inv(s) && Enabled(s, e) && e.Exec? && s.threads[e.t].pc.AtRelease?
    ensures CountsMatch(Apply(s, e))
  {
    assert ThreadOk(s.threads[e.t]);
    TotalUpdate(Readers, s.threads, e.t, Apply(s, e).threads[e.t]);
    TotalUpdate(Writers, s.threads, e.t, Apply(s, e).threads[e.t]);
  }

  // Every other statement leaves the slim lock and all holdings alone.
  lemma QuietStepMatches(s: State, e: Event)
    requires Inv(s) && Enabled(s, e)
    requires e.Exec? ==> s.threads[e.t].pc != AtAcquire && !s.threads[e.t].pc.AtRelease?
    ensures CountsMatch(Apply(s, e))
  {
    var th' := Apply(s, e).threads[e.t];
    assert th'.held == s.threads[e.t].held;
    TotalUpdate(Readers, s.threads, e.t, th');
    TotalUpdate(Writers, s.threads, e.t, th');
  }

  lemma StepCountsMatch(s: State, e: Event)
    requires Inv(s) && Enabled(s, e)
    ensures CountsMatch(Apply(s, e))
  {
    if e.Exec? && s.threads[e.t].pc == AtAcquire {
      AcquireMatches(s, e);
    } else if e.Exec? && s.threads[e.t].pc.AtRelease? {
      ReleaseMatches(s, e);
    } else {
      QuietStepMatches(s, e);
    }
  }

  lemma StepFlagMatches(s: State, e: Event)
    requires Inv(s) && Enabled(s, e)
    ensures var s' := Apply(s, e); Total(FlagOwners, s'.threads) == (if s'.haveExclusive then 1 else 0)
  {
    assert ThreadOk(s.threads[e.t]);
    TotalUpdate(FlagOwners, s.threads, e.t, Apply(s, e).threads[e.t]);
    TotalUpdate(Writers, s.threads, e.t, s.threads[e.t]);
    if s.threads[e.t].pc == AtSetFlag { SetFlagFindsItDown(s, e.t); }
  }

  lemma SetFlagFindsItDown(s: State, t: nat)
    requires Inv(s) && t < |s.threads| && s.threads[t].pc == AtSetFlag
    ensures !s.haveExclusive
  {
    assert ThreadOk(s.threads[t]);
    if s.haveExclusive {
      var o := TotalHasWitness(FlagOwners, s.threads);
      if o < t { TotalCoversTwo(Writers, s.threads, o, t); } else { TotalCoversTwo(Writers, s.threads, t, o); }
    }
  }

  /** No statement of any thread breaks the invariant. */
  lemma StepInv(s: State, e: Event)
    requires Inv(s) && Enabled(s, e)
    ensures Inv(Apply(s, e))
  {
    StepThreadOk(s, e);
    StepCountsMatch(s, e);
    StepFlagMatches(s, e);
  }

  // The flag names the mode of whoever is about to test it.
  lemma FlagTellsMode(s: State, t: nat)
    requires Inv(s) && t < |s.threads|
    ensures s.threads[t].pc == AtTestFlag ==> s.haveExclusive == s.threads[t].entry.writes
    ensures s.threads[t].held.shares > 0 ==> !s.haveExclusive
  {
    var th := s.threads[t];
    assert ThreadOk(th);
    TotalUpdate(Readers, s.threads, t, th);
    TotalUpdate(FlagOwners, s.threads, t, th);
    if s.haveExclusive {
      var o := TotalHasWitness(FlagOwners, s.threads);
      TotalUpdate(Writers, s.threads, o, s.threads[o]);
    }
  }

  /** Every state of every run satisfies the invariant. */
  lemma {:induction false} RunInv(states: seq<State>, events: seq<Event>, i: nat)
    requires IsRun(states, events) && i < |states|
    ensures Inv(states[i])
  {
    if i == 0 {
      InitialInv(states[0]);
    } else {
      RunInv(states, events, i - 1);
      StepInv(states[i - 1], events[i - 1]);
    }
  }

  // ---------- safety of every run ----------

  /** At most one writer, never beside a reader; the slim lock is never misused. */
  lemma MutualExclusion(states: seq<State>, events: seq<Event>, i: nat, a: nat, b: nat)
    requires IsRun(states, events) && i < |states| && a < b < |states[i].threads|
    ensures states[i].srwlock != Misused
    ensures states[i].threads[a].held.writes ==> states[i].threads[b].held == NOTHING
    ensures states[i].threads[b].held.writes ==> states[i].threads[a].held == NOTHING
  {
    RunInv(states, events, i);
    var ts := states[i].threads;
    TotalCoversTwo(Writers, ts, a, b);
    TotalCoversTwo(Readers, ts, a, b);
  }

  /** The flag is never up while some thread holds a read lock. Whenever a thread tests it in unlock it says
      what that thread held when it called, so the release it goes on to make is in that mode and the slim
      lock is held in that mode. */
  lemma UnlockReleasesItsOwnMode(states: seq<State>, events: seq<Event>, i: nat, t: nat)
    requires IsRun(states, events) && i < |states| && t < |states[i].threads|
    ensures var s, th := states[i], states[i].threads[t];
            && (th.held.shares > 0 ==> !s.haveExclusive)
            && (th.pc == AtTestFlag ==> s.haveExclusive == th.entry.writes)
            && (th.pc.AtRelease? ==> th.held == th.entry && th.pc.exclusive == th.entry.writes)
            && (th.pc.AtRelease? ==> if th.pc.exclusive then s.srwlock == Exclusive else s.srwlock.Shared?)
  {
    RunInv(states, events, i);
    var s := states[i];
    FlagTellsMode(s, t);
    assert ThreadOk(s.threads[t]);
    TotalUpdate(Readers, s.threads, t, s.threads[t]);
    TotalUpdate(Writers, s.threads, t, s.threads[t]);
  }

  // ---------- whole calls ----------

  // Event i begins a call of a thread, and up to event j the thread begins no other.
  predicate OneCall(events: seq<Event>, i: nat, j: nat, t: nat)
    requires i < j <= |events|
  {
    && events[i].Begin? && events[i].t == t
    && forall k :: i < k < j && events[k].t == t ==> events[k].Exec?
  }

  /** The call a thread is in is the one it began, with what it held when it began it. */
  lemma {:induction false} CallIsTheOneBegun(states: seq<State>, events: seq<Event>, i: nat, j: nat, t: nat)
    requires IsRun(states, events) && i < j < |states| && OneCall(events, i, j, t)
    ensures t < |states[i].threads| == |states[j].threads|
    ensures states[j].threads[t].op == events[i].op
    ensures states[j].threads[t].entry == states[i].threads[t].held
    decreases j
  {
    if j > i + 1 { CallIsTheOneBegun(states, events, i, j - 1, t); }
  }

  /** And whoever is in a call has begun it. */
  lemma {:induction false} EveryCallWasBegun(states: seq<State>, events: seq<Event>, j: nat, t: nat) returns (i: nat)
    requires IsRun(states, events) && j < |states| && t < |states[j].threads| && states[j].threads[t].pc != Idle
    ensures i < j && OneCall(events, i, j, t)
  {
    if events[j - 1].Begin? && events[j - 1].t == t {
      i := j - 1;
    } else {
      i := EveryCallWasBegun(states, events, j - 1, t);
    }
  }

  /** A call that returns has done what its code promises: from what its thread held when it began the call to
      what it holds now, with the slim lock in the mode acquired and the flag telling it. */
  lemma EveryCallKeepsItsPromise(states: seq<State>, events: seq<Event>, i: nat, j: nat, t: nat)
    requires IsRun(states, events) && i < j < |states| && OneCall(events, i, j, t)
    requires t < |states[j].threads| && states[j].threads[t].pc.AtReturn?
    ensures t < |states[i].threads|
    ensures var op, s, th := events[i].op, states[j], states[j].threads[t];
            && Outcome(op, states[i].threads[t].held, th.pc.code, th.held)
            && (th.pc.code == Success && (op.RdLock? || op.TryRdLock?) ==> s.srwlock.Shared? && !s.haveExclusive)
            && (th.pc.code == Success && (op.WrLock? || op.TryWrLock?) ==> s.srwlock.Exclusive? && s.haveExclusive)
  {
    CallIsTheOneBegun(states, events, i, j, t);
    RunInv(states, events, j);
    var s, th := states[j], states[j].threads[t];
    assert ThreadOk(th);
    FlagTellsMode(s, t);
    TotalUpdate(Readers, s.threads, t, th);
    TotalUpdate(Writers, s.threads, t, th);
    TotalUpdate(FlagOwners, s.threads, t, th);
  }

  // The longest a call can be, in statements of its own, the return included.
  function CallLength(op: Op): nat {
    match op
    case RdLock => 2
    case TryRdLock => 2
    case WrLock => 3
    case TryWrLock => 3
    case Unlock => 4
  }

  function StepsLeft(th: Thread): nat {
    match th.pc
    case Idle => 0
    case AtReturn(_) => 1
    case AtSetFlag => 2
    case AtRelease(_) => 2
    case AtClearFlag => 3
    case AtTestFlag => 4
    case AtAcquire => CallLength(th.op)
  }

  function Own(e: Event, t: nat): nat { if e.Exec? && e.t == t then 1 else 0 }

  // Statements a thread executes in events i to j.
  function OwnSteps(events: seq<Event>, i: nat, j: nat, t: nat): nat
    requires i <= j <= |events|
  {
    if i == j then 0 else OwnSteps(events, i, j - 1, t) + Own(events[j - 1], t)
  }

  /** A call comes back: every statement its thread executes brings the return nearer, and after at most
      CallLength of them the thread is outside the call. */
  lemma CallsComeBack(states: seq<State>, events: seq<Event>, i: nat, j: nat, t: nat)
    requires IsRun(states, events) && i < j < |states| && OneCall(events, i, j, t)
    ensures t < |states[j].threads|
    ensures OwnSteps(events, i + 1, j, t) + StepsLeft(states[j].threads[t]) <= CallLength(events[i].op)
    ensures OwnSteps(events, i + 1, j, t) == CallLength(events[i].op) ==> states[j].threads[t].pc == Idle
  {
    forall k | i < k < j
      ensures StepsLeftIn(states[k + 1], t) <= StepsLeftIn(states[k], t) - Own(events[k], t)
    {
      CallIsTheOneBegun(states, events, i, k, t);
      RunInv(states, events, k);
      StepsLeftFalls(states[k], events[k], t);
    }
    Countdown(states, events, i + 1, j, t);
    StepsLeftAtBegin(states[i], events[i]);
    CallIsTheOneBegun(states, events, i, j, t);
  }

  function StepsLeftIn(s: State, t: nat): nat { if t < |s.threads| then StepsLeft(s.threads[t]) else 0 }

  lemma {:induction false} Countdown(states: seq<State>, events: seq<Event>, i: nat, j: nat, t: nat)
    requires i <= j <= |events| < |states|
    requires forall k :: i <= k < j ==> StepsLeftIn(states[k + 1], t) <= StepsLeftIn(states[k], t) - Own(events[k], t)
    ensures OwnSteps(events, i, j, t) + StepsLeftIn(states[j], t) <= StepsLeftIn(states[i], t)
    decreases j
  {
    if i < j { Countdown(states, events, i, j - 1, t); }
  }

  lemma StepsLeftAtBegin(s: State, e: Event)
    requires Enabled(s, e) && e.Begin?
    ensures StepsLeftIn(Apply(s, e), e.t) == CallLength(e.op)
  {
  }

  lemma StepsLeftFalls(s: State, e: Event, t: nat)
    requires Inv(s) && Enabled(s, e) && t < |s.threads| && (e.t == t ==> e.Exec?)
    ensures StepsLeftIn(Apply(s, e), t) <= StepsLeftIn(s, t) - Own(e, t)
  {
    assert ThreadOk(s.threads[t]);
  }

  /** Between its begin and its return a try or an unlock can always take its next step. */
  lemma TryAndUnlockNeverWait(states: seq<State>, events: seq<Event>, i: nat, j: nat, t: nat)
    requires IsRun(states, events) && i < j < |states| && OneCall(events, i, j, t)
    requires events[i].op.TryRdLock? || events[i].op.TryWrLock? || events[i].op.Unlock?
    requires t < |states[j].threads| && states[j].threads[t].pc != Idle
    ensures Enabled(states[j], Exec(t, false))
  {
    CallIsTheOneBegun(states, events, i, j, t);
    RunInv(states, events, j);
    assert ThreadOk(states[j].threads[t]);
  }

  // A thread in a try call that can still be refused, or has been.
  predicate Refusing(th: Thread) {
    th.op.Try() && (th.pc == AtAcquire || th.pc == AtReturn(EBusy))
  }

  // A thread in a try call that was granted, up to its next call.
  predicate Granted(th: Thread) {
    th.op.Try() && (th.pc == AtSetFlag || th.pc == AtReturn(Success) || th.pc == Idle)
  }

  // Until its next call a try is either refusable or granted for good.
  lemma {:induction false} TryGoesOneWay(states: seq<State>, events: seq<Event>, i: nat, j: nat, t: nat)
    requires IsRun(states, events) && i < j < |states| && OneCall(events, i, j, t) && events[i].op.Try()
    ensures t < |states[j].threads|
    ensures Refusing(states[j].threads[t]) || Granted(states[j].threads[t])
    decreases j
  {
    if j > i + 1 { TryGoesOneWay(states, events, i, j - 1, t); }
  }

  // Seen from a refusal, the call was refusable all the way back.
  lemma {:induction false} RefusedAllAlong(states: seq<State>, events: seq<Event>, i: nat, k: nat, j: nat, t: nat)
    requires IsRun(states, events) && i < k <= j < |states| && OneCall(events, i, j, t) && events[i].op.Try()
    requires t < |states[j].threads| && states[j].threads[t].pc == AtReturn(EBusy)
    ensures t < |states[k].threads| && Refusing(states[k].threads[t])
    decreases j - k
  {
    TryGoesOneWay(states, events, i, k, t);
    if k < j { RefusedAllAlong(states, events, i, k + 1, j, t); }
  }

  /** From the call of a try to its return with EBUSY, no event of its thread changes the slim lock, the flag or
      what anybody holds, whatever other threads do in between. */
  lemma FailedTryTouchesNothing(states: seq<State>, events: seq<Event>, i: nat, j: nat, t: nat)
    requires IsRun(states, events) && i < j < |events| && OneCall(events, i, j, t) && events[i].op.Try()
    requires events[j].Exec? && events[j].t == t
    requires t < |states[j].threads| && states[j].threads[t].pc == AtReturn(EBusy)
    ensures forall k :: i <= k <= j && events[k].t == t ==>
              && states[k + 1].srwlock == states[k].srwlock
              && states[k + 1].haveExclusive == states[k].haveExclusive
              && View(states[k + 1]) == View(states[k])
  {
    forall k | i <= k <= j && events[k].t == t
      ensures states[k + 1].srwlock == states[k].srwlock && states[k + 1].haveExclusive == states[k].haveExclusive
      ensures View(states[k + 1]) == View(states[k])
    {
      if k > i { RefusedAllAlong(states, events, i, k, j, t); }
      if k < j { RefusedAllAlong(states, events, i, k + 1, j, t); }
      assert states[k + 1].threads[t].held == states[k].threads[t].held;
    }
  }

  /** With every thread outside any call and holding nothing, the slim lock is free and the flag is down. */
  lemma QuiescentIsInitial(states: seq<State>, events: seq<Event>, i: nat)
    requires IsRun(states, events) && i < |states|
    requires forall t :: 0 <= t < |states[i].threads| ==>
               states[i].threads[t].pc == Idle && states[i].threads[t].held == NOTHING
    ensures Initial(states[i])
  {
    RunInv(states, events, i);
    var ts := states[i].threads;
    TotalIsZero(Readers, ts);
    TotalIsZero(Writers, ts);
    TotalIsZero(FlagOwners, ts);
  }

  /** The wrapper never strands the lock: a thread that cannot take its next step is waiting to acquire, and
      some thread then holds the lock in a conflicting mode. In particular nobody is ever stuck in unlock. */
  lemma BlockedOnlyByHolder(states: seq<State>, events: seq<Event>, i: nat, t: nat) returns (holder: nat)
    requires IsRun(states, events) && i < |states| && t < |states[i].threads|
    requires states[i].threads[t].pc != Idle
    requires !Enabled(states[i], Exec(t, true)) && !Enabled(states[i], Exec(t, false))
    ensures states[i].threads[t].pc == AtAcquire && !states[i].threads[t].op.Try()
    ensures holder < |states[i].threads|
    ensures if states[i].threads[t].op.Reads() then states[i].threads[holder].held.writes
            else states[i].threads[holder].held != NOTHING
  {
    RunInv(states, events, i);
    var s := states[i];
    if s.srwlock.Shared? {
      holder := TotalHasWitness(Readers, s.threads);
    } else {
      holder := TotalHasWitness(Writers, s.threads);
    }
  }

  // ---------- refinement ----------

  // The lock as its users see it: who holds what, changed in one step by acquire and release.
  type Abstract = seq<Holding>

  function View(s: State): (a: Abstract)
    ensures |a| == |s.threads|
  {
    seq(|s.threads|, t requires 0 <= t < |s.threads| => s.threads[t].held)
  }

  predicate NobodyWrites(a: Abstract) { forall t :: 0 <= t < |a| ==> !a[t].writes }
  predicate NobodyHolds(a: Abstract) { forall t :: 0 <= t < |a| ==> a[t] == NOTHING }

  // What a statement does to the holders.
  datatype Label = Tau | TakesShare | TakesWrite | TryRefused | GivesUp(write: bool)

  // Only the acquire statement of a lock or try call and the release statement of unlock have an effect; which
  // one is settled by the call made, the outcome of a try and what the thread held when it called unlock.
  function LabelOf(s: State, e: Event): Label
    requires Enabled(s, e)
  {
    var th := s.threads[e.t];
    match e
    case Begin(_, _) => Tau
    case Exec(_, granted) =>
      if th.pc == AtAcquire then
        if th.op.Try() && !granted then TryRefused
        else if th.op.RdLock? || th.op.TryRdLock? then TakesShare
        else TakesWrite
      else if th.pc.AtRelease? then GivesUp(th.entry.writes)
      else Tau
  }

  predicate AbstractStep(a: Abstract, b: Abstract, t: nat, l: Label)
    requires t < |a|
  {
    match l
    case Tau => b == a
    case TryRefused => b == a
    case TakesShare => NobodyWrites(a) && b == a[t := Holding(a[t].shares + 1, false)]
    case TakesWrite => NobodyHolds(a) && b == a[t := Holding(0, true)]
    case GivesUp(write) => a[t] != NOTHING && a[t].writes == write && b == a[t := ReleaseOwn(a[t])]
  }

  /** Every statement is its labelled step of the abstract lock. */
  lemma StepRefines(s: State, e: Event)
    requires Inv(s) && Enabled(s, e)
    ensures AbstractStep(View(s), View(Apply(s, e)), e.t, LabelOf(s, e))
  {
    var th := s.threads[e.t];
    var s' := Apply(s, e);
    assert ThreadOk(th);
    assert View(s') == View(s)[e.t := s'.threads[e.t].held];
    if LabelOf(s, e) == TakesShare || LabelOf(s, e) == TakesWrite {
      AvailableMeansCompatible(s, th.op);
    }
    if s'.threads[e.t].held == th.held {
      assert View(s') == View(s);
    }
  }

  lemma AvailableMeansCompatible(s: State, op: Op)
    requires Inv(s) && Available(s.srwlock, op)
    ensures NobodyWrites(View(s))
    ensures !op.Reads() ==> NobodyHolds(View(s))
  {
    forall t | 0 <= t < |s.threads|
      ensures !View(s)[t].writes && (!op.Reads() ==> View(s)[t] == NOTHING)
    {
      TotalUpdate(Readers, s.threads, t, s.threads[t]);
      TotalUpdate(Writers, s.threads, t, s.threads[t]);
    }
  }

  /** Every run of the statement machine is, seen through its holders, a run of the abstract lock. */
  lemma RunRefines(states: seq<State>, events: seq<Event>)
    requires IsRun(states, events)
    ensures NobodyHolds(View(states[0]))
    ensures forall i :: 0 <= i < |events| ==>
              events[i].t < |View(states[i])| && AbstractStep(View(states[i]), View(states[i + 1]), events[i].t, LabelOf(states[i], events[i]))
  {
    forall i | 0 <= i < |events|
      ensures events[i].t < |View(states[i])| && AbstractStep(View(states[i]), View(states[i + 1]), events[i].t, LabelOf(states[i], events[i]))
    {
      RunInv(states, events, i);
      StepRefines(states[i], events[i]);
    }
  }

  // ---------- what the abstract lock allows, the machine does ----------

  // A thread executing alone for at most n statements; a try is granted.
  function Alone(s: State, t: nat, n: nat): State
    decreases n
  {
    if n == 0 || !Enabled(s, Exec(t, true)) then s else Alone(Apply(s, Exec(t, true)), t, n - 1)
  }

  // The abstract step a successful call amounts to.
  function CallLabel(op: Op, before: Holding): Label {
    match op
    case RdLock => TakesShare
    case TryRdLock => TakesShare
    case WrLock => TakesWrite
    case TryWrLock => TakesWrite
    case Unlock => GivesUp(before.writes)
  }

  /** Whenever the holders allow an abstract step, an idle thread can begin the call for it and, running alone,
      completes the call with that step. */
  lemma CallsAreAchievable(s: State, t: nat, op: Op, after: Abstract)
    requires Inv(s) && t < |s.threads| && s.threads[t].pc == Idle
    requires AbstractStep(View(s), after, t, CallLabel(op, View(s)[t]))
    ensures Enabled(s, Begin(t, op))
    ensures var s' := Alone(Apply(s, Begin(t, op)), t, CallLength(op));
            |s'.threads| == |s.threads| && s'.threads[t].pc == Idle && View(s') == after
  {
    var s1 := Apply(s, Begin(t, op));
    StepInv(s, Begin(t, op));
    assert View(s1) == View(s);
    if op.Unlock? { UnlockAlone(s1, t); } else { AcquireAlone(s1, t); }
    assert View(Alone(s1, t, CallLength(op))) == after;
  }

  lemma AcquireAlone(s: State, t: nat)
    requires Inv(s) && t < |s.threads| && s.threads[t].pc == AtAcquire
    requires if s.threads[t].op.Reads() then NobodyWrites(View(s)) else NobodyHolds(View(s))
    ensures var op, s' := s.threads[t].op, Alone(s, t, CallLength(s.threads[t].op));
            && |s'.threads| == |s.threads| && s'.threads[t].pc == Idle
            && View(s') == View(s)[t := if op.Reads() then Holding(View(s)[t].shares + 1, false) else Holding(0, true)]
  {
    var op := s.threads[t].op;
    assert View(s)[t] == s.threads[t].held;
    CompatibleMeansAvailable(s, op);
    var s1 := Apply(s, Exec(t, true));
    var s2 := Apply(s1, Exec(t, true));
    if op.Reads() {
      assert Alone(s, t, 2) == s2;
    } else {
      assert Alone(s, t, 3) == Apply(s2, Exec(t, true));
    }
  }

  lemma UnlockAlone(s: State, t: nat)
    requires Inv(s) && t < |s.threads| && s.threads[t].pc == AtTestFlag
    ensures var s' := Alone(s, t, 4);
            |s'.threads| == |s.threads| && s'.threads[t].pc == Idle && View(s') == View(s)[t := ReleaseOwn(View(s)[t])]
  {
    assert ThreadOk(s.threads[t]);
    FlagTellsMode(s, t);
    var s1 := Apply(s, Exec(t, true));
    var s2 := Apply(s1, Exec(t, true));
    var s3 := Apply(s2, Exec(t, true));
    if s.haveExclusive {
      assert Alone(s1, t, 3) == Apply(s3, Exec(t, true));
    } else {
      assert Alone(s1, t, 3) == s3;
    }
  }

  lemma CompatibleMeansAvailable(s: State, op: Op)
    requires Inv(s) && if op.Reads() then NobodyWrites(View(s)) else NobodyHolds(View(s))
    ensures Available(s.srwlock, op)
  {
    forall t | 0 <= t < |s.threads|
      ensures !s.threads[t].held.writes && (!op.Reads() ==> s.threads[t].held == NOTHING)
    {
      assert View(s)[t] == s.threads[t].held;
    }
    TotalIsZero(Writers, s.threads);
    if !op.Reads() { TotalIsZero(Readers, s.threads); }
  }

  // ---------- the lock object ----------

  /** native_rw_lock_t and the threads using it: each method executes one C statement in place. */
  class NativeRwLock {
    var srwlock: Srw
    var haveExclusive: bool
    var threads: seq<Thread>

    function Current(): State
      reads this
    {
      State(srwlock, haveExclusive, threads)
    }

    // native_rw_init, before any of the n threads has called.
    constructor (n: nat)
      ensures Initial(Current()) && |threads| == n
      ensures Inv(Current())
    {
      srwlock := Free;
      haveExclusive := false;
      threads := seq(n, _ => Thread(Idle, Unlock, NOTHING, NOTHING));
      new;
      InitialInv(Current());
    }

    method BeginCall(t: nat, op: Op)
      requires Inv(Current()) && Enabled(Current(), Begin(t, op))
      modifies this
      ensures Current() == Apply(old(Current()), Begin(t, op))
      ensures Inv(Current())
    {
      StepInv(Current(), Begin(t, op));
      var held := threads[t].held;
      threads := threads[t := Thread(if op.Unlock? then AtTestFlag else AtAcquire, op, held, held)];
    }

    method Execute(t: nat, granted: bool)
      requires Inv(Current()) && Enabled(Current(), Exec(t, granted))
      modifies this
      ensures Current() == Apply(old(Current()), Exec(t, granted))
      ensures Inv(Current())
    {
      StepInv(Current(), Exec(t, granted));
      var th := threads[t];
      match th.pc {
        case AtAcquire =>
          if th.op.Try() && !granted {
            th := th.(pc := AtReturn(EBusy));
          } else {
            srwlock := Acquired(srwlock, th.op);
            if th.op.Reads() {
              th := th.(pc := AtReturn(Success), held := Holding(th.held.shares + 1, th.held.writes));
            } else {
              th := th.(pc := AtSetFlag, held := Holding(th.held.shares, true));
            }
          }
        case AtSetFlag =>
          haveExclusive := true;
          th := th.(pc := AtReturn(Success));
        case AtTestFlag =>
          th := th.(pc := if haveExclusive then AtClearFlag else AtRelease(false));
        case AtClearFlag =>
          haveExclusive := false;
          th := th.(pc := AtRelease(true));
        case AtRelease(exclusive) =>
          srwlock := Released(srwlock, exclusive);
          th := th.(pc := AtReturn(Success), held := Dropped(th.held, exclusive));
        case AtReturn(_) =>
          th := th.(pc := Idle);
        case Idle =>
      }
      threads := threads[t := th];
    }
  }
}

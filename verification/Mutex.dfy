/** The Windows mutex of thr_mutex.h, a try that refuses recursion built on a recursive critical section, as a
    machine of any number of threads interleaved one C statement at a time. The critical section is modelled
    by its contract: entering waits unless it is unowned or owned by the caller and counts the entry, a try
    fails only when another thread owns it, and leaving without owning is a misuse. The only client rule is
    that a thread unlocks only what it has locked. */
module Mutex {
  import opened Options

  datatype Section = Section(owner: Option<nat>, recursion: nat) | Misused

  datatype Op = Lock | TryLock | Unlock
  datatype Code = Success | EBusy

  // The statement a thread is about to execute.
  datatype Pc = Idle | AtEnter | AtTryEnter | AtTestCount | AtLeave | AtReturn(code: Code)

  // A thread: its statement, its current call, and how deep it held the mutex when that call began.
  datatype Thread = Thread(pc: Pc, op: Op, entry: nat)

  datatype State = State(cs: Section, threads: seq<Thread>)

  datatype Event = Begin(t: nat, op: Op) | Exec(t: nat)

  predicate Initial(s: State) {
    && s.cs == Section(None, 0)
    && forall t :: 0 <= t < |s.threads| ==> s.threads[t].pc == Idle
  }

  predicate CanEnter(cs: Section, t: nat) {
    cs.Section? && (cs.owner == None || cs.owner == Some(t))
  }

  function Entered(cs: Section, t: nat): Section
    requires CanEnter(cs, t)
  {
    Section(Some(t), cs.recursion + 1)
  }

  function Left(cs: Section, t: nat): Section {
    if cs.Misused? || cs.owner != Some(t) || cs.recursion == 0 then Misused
    else if cs.recursion == 1 then Section(None, 0)
    else Section(Some(t), cs.recursion - 1)
  }

  /** How many locks of the mutex a thread holds, as its user counts them: the recursion count of the owner,
      less the entry that a refused try has made and not yet undone. */
  function Depth(s: State, t: nat): nat {
    if s.cs.Misused? || s.cs.owner != Some(t) then 0
    else if t < |s.threads| && Undoing(s.threads[t], s.cs.recursion) then s.cs.recursion - 1
    else s.cs.recursion
  }

  predicate Undoing(th: Thread, recursion: nat) {
    th.op.TryLock? && (th.pc == AtTestCount || th.pc == AtLeave) && recursion > 1
  }

  predicate Enabled(s: State, e: Event) {
    && e.t < |s.threads|
    && var th := s.threads[e.t];
       match e
       case Begin(t, op) => th.pc == Idle && (op.Unlock? ==> Depth(s, t) > 0)
       case Exec(t) => th.pc != Idle && (th.pc == AtEnter ==> CanEnter(s.cs, t))
  }

  function Apply(s: State, e: Event): State
    requires Enabled(s, e)
  {
    var th := s.threads[e.t];
    match e
    case Begin(t, op) =>
      With(s, t, Thread(match op case Lock => AtEnter case TryLock => AtTryEnter case Unlock => AtLeave,
                        op, Depth(s, t)))
    case Exec(t) =>
      match th.pc
      case Idle => s
      case AtEnter =>
        With(s.(cs := Entered(s.cs, t)), t, th.(pc := AtReturn(Success)))
      case AtTryEnter =>
        if CanEnter(s.cs, t) then With(s.(cs := Entered(s.cs, t)), t, th.(pc := AtTestCount))
        else With(s, t, th.(pc := AtReturn(EBusy)))
      case AtTestCount =>
        With(s, t, th.(pc := if s.cs.Section? && s.cs.recursion > 1 then AtLeave else AtReturn(Success)))
      case AtLeave =>
        With(s.(cs := Left(s.cs, t)), t, th.(pc := AtReturn(if th.op.TryLock? then EBusy else Success)))
      case AtReturn(_) =>
        With(s, t, th.(pc := Idle))
  }

  function With(s: State, t: nat, th: Thread): State
    requires t < |s.threads|
  {
    s.(threads := s.threads[t := th])
  }

  ghost predicate IsRun(states: seq<State>, events: seq<Event>) {
    && |states| == |events| + 1
    && Initial(states[0])
    && forall i :: 0 <= i < |events| ==> Enabled(states[i], events[i]) && states[i + 1] == Apply(states[i], events[i])
  }

  // ---------- the invariant ----------

  predicate SectionOk(s: State) {
    && s.cs.Section?
    && (s.cs.owner == None <==> s.cs.recursion == 0)
    && (s.cs.owner.Some? ==> s.cs.owner.value < |s.threads|)
  }

  /** What a thread may conclude when a call returns: from its depth before, the code and its depth now. */
  predicate Outcome(op: Op, before: nat, code: Code, after: nat) {
    match op
    case Lock => code == Success && after == before + 1
    case TryLock => if code == Success then before == 0 && after == 1 else after == before
    case Unlock => code == Success && before > 0 && after == before - 1
  }

  predicate ThreadOk(s: State, t: nat)
    requires t < |s.threads| && s.cs.Section?
  {
    var th := s.threads[t];
    match th.pc
    case Idle => true
    case AtEnter => th.op.Lock? && Depth(s, t) == th.entry
    case AtTryEnter => th.op.TryLock? && Depth(s, t) == th.entry
    case AtTestCount => th.op.TryLock? && s.cs.owner == Some(t) && s.cs.recursion == th.entry + 1
    case AtLeave =>
      && !th.op.Lock?
      && s.cs.owner == Some(t)
      && th.entry > 0
      && s.cs.recursion == th.entry + (if th.op.TryLock? then 1 else 0)
    case AtReturn(code) => Outcome(th.op, th.entry, code, Depth(s, t))
  }

  predicate Inv(s: State) {
    SectionOk(s) && forall t :: 0 <= t < |s.threads| ==> ThreadOk(s, t)
  }

  lemma StepThreadOk(s: State, e: Event)
    requires Inv(s) && Enabled(s, e)
    ensures SectionOk(Apply(s, e)) && ThreadOk(Apply(s, e), e.t)
  {
    assert ThreadOk(s, e.t);
  }

  /** No thread's depth is changed by another thread's statement. */
  lemma OthersKeepTheirDepth(s: State, e: Event, t: nat)
    requires Inv(s) && Enabled(s, e) && t < |s.threads| && t != e.t
    ensures Depth(Apply(s, e), t) == Depth(s, t)
    ensures SectionOk(Apply(s, e)) && ThreadOk(Apply(s, e), t)
  {
    assert ThreadOk(s, t) && ThreadOk(s, e.t);
  }

  /** No statement of any thread breaks the invariant. */
  lemma StepInv(s: State, e: Event)
    requires Inv(s) && Enabled(s, e)
    ensures Inv(Apply(s, e))
  {
    StepThreadOk(s, e);
    forall t | 0 <= t < |s.threads| && t != e.t
      ensures ThreadOk(Apply(s, e), t)
    {
      OthersKeepTheirDepth(s, e, t);
    }
  }

  lemma {:induction false} RunInv(states: seq<State>, events: seq<Event>, i: nat)
    requires IsRun(states, events) && i < |states|
    ensures Inv(states[i])
  {
    if i > 0 {
      RunInv(states, events, i - 1);
      StepInv(states[i - 1], events[i - 1]);
    }
  }

  // ---------- what a client was told ----------

  // The change an event makes to a client's own count: one more when a lock or a try returns success, one less
  // when it calls unlock.
  function Change(s: State, e: Event, t: nat): int {
    if e.t != t || t >= |s.threads| then 0
    else match e
      case Begin(_, op) => if op.Unlock? then -1 else 0
      case Exec(_) => if s.threads[t].pc == AtReturn(Success) && !s.threads[t].op.Unlock? then 1 else 0
  }

  // Successful lock and try returns less unlock calls of a thread, over the first i events.
  function Told(states: seq<State>, events: seq<Event>, i: nat, t: nat): int
    requires |states| == |events| + 1 && i <= |events|
  {
    if i == 0 then 0 else Told(states, events, i - 1, t) + Change(states[i - 1], events[i - 1], t)
  }

  // The depth a thread has been told of: the real one outside calls, in a call the one it began with, less
  // the lock it is giving up.
  function KnownDepth(s: State, t: nat): int {
    if t >= |s.threads| || s.threads[t].pc == Idle then Depth(s, t)
    else s.threads[t].entry - (if s.threads[t].op.Unlock? then 1 else 0)
  }

  lemma ChangeTracksKnownDepth(s: State, e: Event, t: nat)
    requires Inv(s) && Enabled(s, e) && t < |s.threads|
    ensures KnownDepth(Apply(s, e), t) == KnownDepth(s, t) + Change(s, e, t)
  {
    if e.t != t {
      OthersKeepTheirDepth(s, e, t);
    } else {
      assert ThreadOk(s, t);
    }
  }

  /** In every state of every run the client's own count is the depth the machine has told it of. It is never
      negative, never above its depth in the critical section, and equal to it outside calls. */
  lemma {:induction false} ToldIsKnownDepth(states: seq<State>, events: seq<Event>, i: nat, t: nat)
    requires IsRun(states, events) && i < |states| && t < |states[0].threads|
    ensures t < |states[i].threads|
    ensures Told(states, events, i, t) == KnownDepth(states[i], t)
    ensures 0 <= Told(states, events, i, t) <= Depth(states[i], t)
    ensures states[i].threads[t].pc == Idle ==> Told(states, events, i, t) == Depth(states[i], t)
  {
    RunInv(states, events, i);
    if i > 0 {
      ToldIsKnownDepth(states, events, i - 1, t);
      RunInv(states, events, i - 1);
      ChangeTracksKnownDepth(states[i - 1], events[i - 1], t);
    }
    assert ThreadOk(states[i], t);
  }

  /** No two threads have at once been told, and not yet given up, that they hold the mutex; and the critical
      section is never left by a thread not owning it. */
  lemma MutualExclusion(states: seq<State>, events: seq<Event>, i: nat, a: nat, b: nat)
    requires IsRun(states, events) && i < |states| && a != b
    requires a < |states[0].threads| && b < |states[0].threads|
    ensures states[i].cs != Misused
    ensures Told(states, events, i, a) == 0 || Told(states, events, i, b) == 0
  {
    RunInv(states, events, i);
    ToldIsKnownDepth(states, events, i, a);
    ToldIsKnownDepth(states, events, i, b);
  }

  // ---------- whole calls ----------

  // Event i begins a call of a thread, and up to event j the thread begins no other.
  predicate OneCall(events: seq<Event>, i: nat, j: nat, t: nat)
    requires i < j <= |events|
  {
    && events[i].Begin? && events[i].t == t
    && forall k :: i < k < j && events[k].t == t ==> events[k].Exec?
  }

  /** The call a thread is in is the one it began, with the depth it then had. */
  lemma {:induction false} CallIsTheOneBegun(states: seq<State>, events: seq<Event>, i: nat, j: nat, t: nat)
    requires IsRun(states, events) && i < j < |states| && OneCall(events, i, j, t)
    ensures t < |states[i].threads| == |states[j].threads|
    ensures states[j].threads[t].op == events[i].op
    ensures states[j].threads[t].entry == Depth(states[i], t)
    decreases j
  {
    if j > i + 1 { CallIsTheOneBegun(states, events, i, j - 1, t); }
  }

  /** And whoever is in a call has begun it. */
  lemma {:induction false} EveryCallWasBegun(states: seq<State>, events: seq<Event>, j: nat, t: nat) returns (i: nat)
    requires IsRun(states, events) && j < |states| && t < |states[j].threads| && states[j].threads[t].pc != Idle
    ensures i < j && OneCall(events, i, j, t)
  {
    if events[j - 1].Begin? && events[j - 1].t == t {
      i := j - 1;
    } else {
      i := EveryCallWasBegun(states, events, j - 1, t);
    }
  }

  /** A call that returns has done what its code promises to the depth its thread had when it began: a
      successful try leads from not holding to holding once, a refused one leaves the depth as it was, however
      often the thread had locked the mutex. */
  lemma EveryCallKeepsItsPromise(states: seq<State>, events: seq<Event>, i: nat, j: nat, t: nat)
    requires IsRun(states, events) && i < j < |states| && OneCall(events, i, j, t)
    requires t < |states[j].threads| && states[j].threads[t].pc.AtReturn?
    ensures var s, code := states[j], states[j].threads[t].pc.code;
            && Outcome(events[i].op, Depth(states[i], t), code, Depth(s, t))
            && (events[i].op.Lock? ==> s.cs == Section(Some(t), Depth(states[i], t) + 1))
            && (events[i].op.TryLock? && code == Success ==> s.cs == Section(Some(t), 1))
  {
    CallIsTheOneBegun(states, events, i, j, t);
    RunInv(states, events, j);
    assert ThreadOk(states[j], t);
  }

  // The longest a call can be, in statements of its own, the return included.
  function CallLength(op: Op): nat {
    match op
    case Lock => 2
    case TryLock => 4
    case Unlock => 2
  }

  function StepsLeft(pc: Pc): nat {
    match pc
    case Idle => 0
    case AtReturn(_) => 1
    case AtEnter => 2
    case AtLeave => 2
    case AtTestCount => 3
    case AtTryEnter => 4
  }

  // Statements a thread executes in events i to j.
  function OwnSteps(events: seq<Event>, i: nat, j: nat, t: nat): nat
    requires i <= j <= |events|
  {
    if i == j then 0 else OwnSteps(events, i, j - 1, t) + (if events[j - 1] == Exec(t) then 1 else 0)
  }

  /** A call comes back: every statement its thread executes brings the return nearer, and after at most
      CallLength of them the thread is outside the call. */
  lemma {:induction false} CallsComeBack(states: seq<State>, events: seq<Event>, i: nat, j: nat, t: nat)
    requires IsRun(states, events) && i < j < |states| && OneCall(events, i, j, t)
    ensures t < |states[j].threads|
    ensures OwnSteps(events, i + 1, j, t) + StepsLeft(states[j].threads[t].pc) <= CallLength(events[i].op)
    ensures OwnSteps(events, i + 1, j, t) == CallLength(events[i].op) ==> states[j].threads[t].pc == Idle
    decreases j
  {
    if j > i + 1 {
      CallsComeBack(states, events, i, j - 1, t);
      StepsLeftFalls(states[j - 1], events[j - 1], t);
    } else {
      StepsLeftAtBegin(states[i], events[i]);
    }
  }

  lemma StepsLeftAtBegin(s: State, e: Event)
    requires Enabled(s, e) && e.Begin?
    ensures StepsLeft(Apply(s, e).threads[e.t].pc) == CallLength(e.op)
  {
  }

  lemma StepsLeftFalls(s: State, e: Event, t: nat)
    requires Enabled(s, e) && t < |s.threads| && (e.t == t ==> e.Exec?)
    ensures |Apply(s, e).threads| == |s.threads|
    ensures StepsLeft(Apply(s, e).threads[t].pc) <= StepsLeft(s.threads[t].pc) - (if e.t == t then 1 else 0)
  {
  }

  /** Between its begin and its return a try or an unlock can always take its next step. */
  lemma TryAndUnlockNeverWait(states: seq<State>, events: seq<Event>, i: nat, j: nat, t: nat)
    requires IsRun(states, events) && i < j < |states| && OneCall(events, i, j, t) && !events[i].op.Lock?
    requires t < |states[j].threads| && states[j].threads[t].pc != Idle
    ensures Enabled(states[j], Exec(t))
  {
    CallIsTheOneBegun(states, events, i, j, t);
    RunInv(states, events, j);
    assert ThreadOk(states[j], t);
  }

  // A try that has entered is bound to end one way.
  predicate Verdict(s: State, t: nat, success: bool)
    requires t < |s.threads| && s.cs.Section?
  {
    match s.threads[t].pc
    case AtTestCount => s.cs.recursion == 1 <==> success
    case AtLeave => s.threads[t].op.TryLock? && !success
    case AtReturn(code) => code == Success <==> success
    case _ => false
  }

  lemma VerdictStands(s: State, e: Event, t: nat, success: bool)
    requires Inv(s) && Enabled(s, e) && t < |s.threads| && Verdict(s, t, success)
    requires e.t == t ==> !s.threads[t].pc.AtReturn?
    ensures Inv(Apply(s, e)) && Verdict(Apply(s, e), t, success)
  {
    StepInv(s, e);
    assert ThreadOk(s, t) && ThreadOk(s, e.t);
  }

  // From its entry at event e on, a try is under its verdict until it is over.
  lemma {:induction false} UnderVerdict(states: seq<State>, events: seq<Event>, e: nat, j: nat, t: nat)
    requires IsRun(states, events) && e < j < |states| && t < |states[e].threads|
    requires events[e] == Exec(t) && states[e].threads[t].pc == AtTryEnter
    requires forall k :: e < k < j && events[k].t == t ==> events[k].Exec?
    ensures t < |states[j].threads| && states[j].cs.Section?
    ensures states[j].threads[t].pc == Idle || Verdict(states[j], t, NobodyHolds(View(states[e])))
    decreases j
  {
    RunInv(states, events, j - 1);
    RunInv(states, events, j);
    if j == e + 1 {
      HoldersAreOwners(states[e]);
    } else {
      UnderVerdict(states, events, e, j - 1, t);
      var s := states[j - 1];
      if s.threads[t].pc != Idle && (events[j - 1].t == t ==> !s.threads[t].pc.AtReturn?) {
        VerdictStands(s, events[j - 1], t, NobodyHolds(View(states[e])));
      }
    }
  }

  // A call is where it began until its thread's first statement.
  lemma {:induction false} StillAtTryEnter(states: seq<State>, events: seq<Event>, i: nat, e: nat, t: nat)
    requires IsRun(states, events) && i < e < |states| && events[i] == Begin(t, TryLock)
    requires forall k :: i < k < e ==> events[k].t != t
    ensures t < |states[e].threads| && states[e].threads[t].pc == AtTryEnter
    decreases e
  {
    if e > i + 1 { StillAtTryEnter(states, events, i, e - 1, t); }
  }

  /** With its first statement a try enters the critical section whenever no other thread holds the mutex, also
      when its own thread does, and otherwise leaves it alone. */
  lemma TryEntersFirst(states: seq<State>, events: seq<Event>, i: nat, e: nat, t: nat)
    requires IsRun(states, events) && i < e < |events| && events[i] == Begin(t, TryLock) && events[e] == Exec(t)
    requires forall k :: i < k < e ==> events[k].t != t
    ensures t < |states[e].threads|
    ensures states[e + 1].cs ==
            if NobodyElseHolds(View(states[e]), t) then Section(Some(t), Depth(states[e], t) + 1) else states[e].cs
  {
    StillAtTryEnter(states, events, i, e, t);
    RunInv(states, events, e);
    HoldersAreOwners(states[e]);
    assert ThreadOk(states[e], t);
    if states[e].cs.owner.Some? {
      assert View(states[e])[states[e].cs.owner.value] > 0;
    }
  }

  /** A try called at event i, whose thread executes its first statement at event e and is at the return of
      that call at state j, succeeded exactly when nobody, the caller included, held the mutex at state e,
      whatever other threads did in between. */
  lemma TryDecidesOnEntry(states: seq<State>, events: seq<Event>, i: nat, e: nat, j: nat, t: nat)
    requires IsRun(states, events) && i < e < j < |states| && OneCall(events, i, j, t) && events[i].op == TryLock
    requires events[e] == Exec(t) && forall k :: i < k < e ==> events[k].t != t
    requires t < |states[j].threads| && states[j].threads[t].pc.AtReturn?
    ensures states[j].threads[t].pc.code == Success <==> NobodyHolds(View(states[e]))
  {
    StillAtTryEnter(states, events, i, e, t);
    UnderVerdict(states, events, e, j, t);
  }

  /** Nobody waits unless another thread holds the mutex; unlock and try never wait. */
  lemma BlockedOnlyByHolder(states: seq<State>, events: seq<Event>, i: nat, t: nat)
    requires IsRun(states, events) && i < |states| && t < |states[i].threads|
    requires states[i].threads[t].pc != Idle && !Enabled(states[i], Exec(t))
    ensures states[i].threads[t].pc == AtEnter && Depth(states[i], t) == 0
    ensures exists holder :: 0 <= holder < |states[i].threads| && holder != t && Depth(states[i], holder) > 0
  {
    RunInv(states, events, i);
    var s := states[i];
    assert ThreadOk(s, s.cs.owner.value);
    assert Depth(s, s.cs.owner.value) > 0;
  }

  // ---------- refinement ----------

  // The mutex as its users see it: each thread's depth, changed in one step by lock, try and unlock.
  type Abstract = seq<nat>

  function View(s: State): (a: Abstract)
    ensures |a| == |s.threads|
  {
    seq(|s.threads|, t requires 0 <= t < |s.threads| => Depth(s, t))
  }

  predicate NobodyHolds(a: Abstract) { forall t :: 0 <= t < |a| ==> a[t] == 0 }
  predicate NobodyElseHolds(a: Abstract, t: nat) { forall u :: 0 <= u < |a| && u != t ==> a[u] == 0 }

  // What a statement does to the users' view.
  datatype Label = Tau | Locks | TrySucceeds | TryRefused | Unlocks

  function LabelOf(s: State, e: Event): Label
    requires Enabled(s, e)
  {
    if e.Begin? then Tau
    else match s.threads[e.t].pc
      case AtEnter => Locks
      case AtTryEnter => if s.cs == Section(None, 0) then TrySucceeds else TryRefused
      case AtLeave => if s.threads[e.t].op.Unlock? then Unlocks else Tau
      case _ => Tau
  }

  predicate AbstractStep(a: Abstract, b: Abstract, t: nat, l: Label)
    requires t < |a|
  {
    match l
    case Tau => b == a
    case Locks => NobodyElseHolds(a, t) && b == a[t := a[t] + 1]
    case TrySucceeds => NobodyHolds(a) && b == a[t := 1]
    case TryRefused => !NobodyHolds(a) && b == a
    case Unlocks => a[t] > 0 && b == a[t := a[t] - 1]
  }

  lemma HoldersAreOwners(s: State)
    requires Inv(s)
    ensures forall t :: 0 <= t < |s.threads| ==> (View(s)[t] > 0 <==> s.cs.owner == Some(t))
    ensures NobodyHolds(View(s)) <==> s.cs == Section(None, 0)
  {
    if s.cs.owner.Some? {
      assert ThreadOk(s, s.cs.owner.value);
      assert View(s)[s.cs.owner.value] > 0;
    }
  }

  /** Every statement is the labelled step of the abstract mutex; the temporary entry of a refused try is
      invisible to the users of the mutex. */
  lemma StepRefines(s: State, e: Event)
    requires Inv(s) && Enabled(s, e)
    ensures AbstractStep(View(s), View(Apply(s, e)), e.t, LabelOf(s, e))
  {
    var s' := Apply(s, e);
    assert ThreadOk(s, e.t);
    HoldersAreOwners(s);
    forall t | 0 <= t < |s.threads| && t != e.t
      ensures View(s')[t] == View(s)[t]
    {
      OthersKeepTheirDepth(s, e, t);
    }
    assert View(s') == View(s)[e.t := Depth(s', e.t)];
    if Depth(s', e.t) == Depth(s, e.t) {
      assert View(s') == View(s);
    }
  }

  /** Every run of the statement machine is a run of the abstract mutex. */
  lemma RunRefines(states: seq<State>, events: seq<Event>)
    requires IsRun(states, events)
    ensures NobodyHolds(View(states[0]))
    ensures forall i :: 0 <= i < |events| ==>
              && events[i].t < |View(states[i])|
              && AbstractStep(View(states[i]), View(states[i + 1]), events[i].t, LabelOf(states[i], events[i]))
  {
    forall i | 0 <= i < |events|
      ensures events[i].t < |View(states[i])|
      ensures AbstractStep(View(states[i]), View(states[i + 1]), events[i].t, LabelOf(states[i], events[i]))
    {
      RunInv(states, events, i);
      StepRefines(states[i], events[i]);
    }
  }

  // ---------- what the abstract mutex allows, the machine does ----------

  // A thread executing alone for at most n statements.
  function Alone(s: State, t: nat, n: nat): State
    decreases n
  {
    if n == 0 || !Enabled(s, Exec(t)) then s else Alone(Apply(s, Exec(t)), t, n - 1)
  }

  // The abstract step a call amounts to.
  function CallLabel(op: Op, a: Abstract): Label {
    match op
    case Lock => Locks
    case TryLock => if NobodyHolds(a) then TrySucceeds else TryRefused
    case Unlock => Unlocks
  }

  /** Whenever the abstract mutex allows a call, an idle thread can begin it and, running alone, completes it
      with that step. */
  lemma CallsAreAchievable(s: State, t: nat, op: Op, after: Abstract)
    requires Inv(s) && t < |s.threads| && s.threads[t].pc == Idle
    requires AbstractStep(View(s), after, t, CallLabel(op, View(s)))
    ensures Enabled(s, Begin(t, op))
    ensures var s' := Alone(Apply(s, Begin(t, op)), t, CallLength(op));
            |s'.threads| == |s.threads| && s'.threads[t].pc == Idle && View(s') == after
  {
    HoldersAreOwners(s);
    var s1 := Apply(s, Begin(t, op));
    StepInv(s, Begin(t, op));
    StepRefines(s, Begin(t, op));
    assert View(s1) == View(s);
    if s.cs.owner.Some? {
      assert View(s)[s.cs.owner.value] > 0;
    }
    match op {
      case Lock => LockAlone(s1, t);
      case TryLock => TryAlone(s1, t);
      case Unlock => UnlockAlone(s1, t);
    }
  }

  // One statement executed alone.
  lemma AloneStep(s: State, t: nat, n: nat)
    requires Inv(s) && Enabled(s, Exec(t)) && n > 0
    ensures Alone(s, t, n) == Alone(Apply(s, Exec(t)), t, n - 1)
    ensures Inv(Apply(s, Exec(t))) && AbstractStep(View(s), View(Apply(s, Exec(t))), t, LabelOf(s, Exec(t)))
  {
    StepInv(s, Exec(t));
    StepRefines(s, Exec(t));
  }

  lemma LockAlone(s: State, t: nat)
    requires Inv(s) && t < |s.threads| && s.threads[t].pc == AtEnter && CanEnter(s.cs, t)
    ensures var s' := Alone(s, t, 2);
            |s'.threads| == |s.threads| && s'.threads[t].pc == Idle && View(s') == View(s)[t := View(s)[t] + 1]
  {
    AloneStep(s, t, 2);
    AloneStep(Apply(s, Exec(t)), t, 1);
  }

  lemma UnlockAlone(s: State, t: nat)
    requires Inv(s) && t < |s.threads| && s.threads[t].pc == AtLeave && s.threads[t].op == Unlock && View(s)[t] > 0
    ensures var s' := Alone(s, t, 2);
            |s'.threads| == |s.threads| && s'.threads[t].pc == Idle && View(s') == View(s)[t := View(s)[t] - 1]
  {
    AloneStep(s, t, 2);
    AloneStep(Apply(s, Exec(t)), t, 1);
  }

  lemma TryAlone(s: State, t: nat)
    requires Inv(s) && t < |s.threads| && s.threads[t].pc == AtTryEnter
    ensures var s' := Alone(s, t, 4);
            && |s'.threads| == |s.threads| && s'.threads[t].pc == Idle
            && View(s') == if NobodyHolds(View(s)) then View(s)[t := 1] else View(s)
  {
    HoldersAreOwners(s);
    AloneStep(s, t, 4);
    var s1 := Apply(s, Exec(t));
    AloneStep(s1, t, 3);
    if s1.threads[t].pc == AtTestCount {
      var s2 := Apply(s1, Exec(t));
      AloneStep(s2, t, 2);
      if s2.threads[t].pc == AtLeave { AloneStep(Apply(s2, Exec(t)), t, 1); }
    }
  }

  // ---------- the mutex object ----------

  /** native_mutex_t and the threads using it: each method executes one C statement in place. */
  class NativeMutex {
    var cs: Section
    var threads: seq<Thread>

    function Current(): State
      reads this
    {
      State(cs, threads)
    }

    // native_mutex_init, before any of the n threads has called.
    constructor (n: nat)
      ensures Initial(Current()) && |threads| == n
      ensures Inv(Current())
    {
      cs := Section(None, 0);
      threads := seq(n, _ => Thread(Idle, Lock, 0));
    }

    method BeginCall(t: nat, op: Op)
      requires Inv(Current()) && Enabled(Current(), Begin(t, op))
      modifies this
      ensures Current() == Apply(old(Current()), Begin(t, op))
      ensures Inv(Current())
    {
      StepInv(Current(), Begin(t, op));
      var pc := match op case Lock => AtEnter case TryLock => AtTryEnter case Unlock => AtLeave;
      threads := threads[t := Thread(pc, op, Depth(Current(), t))];
    }

    method Execute(t: nat)
      requires Inv(Current()) && Enabled(Current(), Exec(t))
      modifies this
      ensures Current() == Apply(old(Current()), Exec(t))
      ensures Inv(Current())
    {
      StepInv(Current(), Exec(t));
      var pc := threads[t].pc;
      match pc {
        case AtEnter =>
          cs := Entered(cs, t);
          pc := AtReturn(Success);
        case AtTryEnter =>
          if CanEnter(cs, t) {
            cs := Entered(cs, t);
            pc := AtTestCount;
          } else {
            pc := AtReturn(EBusy);
          }
        case AtTestCount =>
          pc := if cs.recursion > 1 then AtLeave else AtReturn(Success);
        case AtLeave =>
          cs := Left(cs, t);
          pc := AtReturn(if threads[t].op.TryLock? then EBusy else Success);
        case AtReturn(_) =>
          pc := Idle;
        case Idle =>
      }
      threads := threads[t := threads[t].(pc := pc)];
    }
  }
}

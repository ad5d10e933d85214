/** The draw lock: held by the composer from prepare to set (hwc.cpp), while pausing or resuming
    the external display waits on it for one composition (hwc_utils.cpp, hwc_uevents.cpp).
    The threads interleave in any order; a wait ends only after a signal. */
module DrawLock {

  /** Why a thread waits: handle_pause, handle_resume, or an ONLINE event that makes the
      composition give up its resources. */
  datatype Reason = Pause | Resume | GiveUp

  datatype Pc = Away | Holding | Ready(why: Reason) | Waiting(why: Reason) | Woken(why: Reason) | Done(why: Reason)

  datatype Owner = Nobody | Composer | Thread(t: nat)

  /** Where the composer is between taking the lock in prepare and releasing it in set. */
  datatype Round = Idle | Locked | Prepared(configured: bool) | Committed(configured: bool, shown: bool)

  /** dpyAttr of the external display. */
  datatype Attr = Attr(connected: bool, active: bool, paused: bool, configuring: bool)

  datatype State = State(owner: Owner, round: Round, attr: Attr, pcs: seq<Pc>)

  datatype Event =
    | PrepareLock
    | PrepareExternal(hasLayers: bool)
    | SetExternal
    | SetEnd(woken: set<nat>)
    | Lock(t: nat)
    | Write(t: nat, why: Reason)
    | Wait(t: nat)
    | WaitReturns(t: nat)
    | Finish(t: nat)
    | Online(t: nat)
    | Offline(t: nat)
    | Unlock(t: nat)

  // ------------------------------------------------------------------ steps

  predicate Holds(pc: Pc) {
    pc.Holding? || pc.Ready? || pc.Done?
  }

  ghost predicate Init(s: State) {
    s.owner == Nobody && s.round == Idle && forall t :: 0 <= t < |s.pcs| ==> s.pcs[t] == Away
  }

  /** The external display can be composed for. */
  predicate Bright(a: Attr) {
    a.active && a.connected && !a.paused
  }

  function Written(a: Attr, why: Reason): Attr {
    match why
    case Pause => a.(active := true, paused := true)
    case Resume => a.(active := true, configuring := true)
    case GiveUp => a.(configuring := true)
  }

  /** What a thread does once its wait is over, before it unlocks. */
  function Finished(a: Attr, why: Reason): Attr {
    if why == Resume then a.(paused := false) else a
  }

  /** Thread t moves from one place to another; the others stay where they are. */
  predicate Moves(s: State, r: State, t: nat, pc: Pc, owner: Owner, attr: Attr) {
    t < |s.pcs| && r == s.(pcs := s.pcs[t := pc], owner := owner, attr := attr)
  }

  /** pthread_cond_signal wakes some of the waiting threads, at least one if there is one. */
  ghost predicate Signalled(pcs: seq<Pc>, after: seq<Pc>, woken: set<nat>) {
    && |after| == |pcs|
    && (forall t :: t in woken ==> t < |pcs| && pcs[t].Waiting?)
    && (forall t: nat :: t < |pcs| ==> after[t] == if t in woken then Woken(pcs[t].why) else pcs[t])
    && ((exists t :: 0 <= t < |pcs| && pcs[t].Waiting?) ==> woken != {})
  }

  ghost predicate Next(s: State, e: Event, r: State) {
    match e
    case PrepareLock =>
      s.owner == Nobody && s.round == Idle && r == s.(owner := Composer, round := Locked)
    case PrepareExternal(hasLayers) =>
      var configures := hasLayers && Bright(s.attr);
      s.round == Locked &&
      r == s.(round := Prepared(configures), attr := if configures then s.attr.(configuring := false) else s.attr)
    case SetExternal =>
      s.round.Prepared? && r == s.(round := Committed(s.round.configured, Bright(s.attr)))
    case SetEnd(woken) =>
      s.round.Committed? && Signalled(s.pcs, r.pcs, woken) && r == s.(owner := Nobody, round := Idle, pcs := r.pcs)
    case Lock(t) =>
      s.owner == Nobody && Moves(s, r, t, Holding, Thread(t), s.attr) && s.pcs[t] == Away
    case Write(t, why) =>
      Moves(s, r, t, Ready(why), s.owner, Written(s.attr, why)) && s.pcs[t] == Holding
    case Wait(t) =>
      t < |s.pcs| && s.pcs[t].Ready? && Moves(s, r, t, Waiting(s.pcs[t].why), Nobody, s.attr)
    case WaitReturns(t) =>
      s.owner == Nobody && t < |s.pcs| && s.pcs[t].Woken? && Moves(s, r, t, Done(s.pcs[t].why), Thread(t), s.attr)
    case Finish(t) =>
      t < |s.pcs| && s.pcs[t].Done? && Moves(s, r, t, Away, Nobody, Finished(s.attr, s.pcs[t].why))
    case Online(t) =>
      Moves(s, r, t, Holding, s.owner, s.attr.(connected := true, paused := false, configuring := true)) && s.pcs[t] == Holding
    case Offline(t) =>
      Moves(s, r, t, Holding, s.owner, Attr(false, false, false, false)) && s.pcs[t] == Holding
    case Unlock(t) =>
      Moves(s, r, t, Away, Nobody, s.attr) && s.pcs[t] == Holding
  }

  /** A run: states[i] goes to states[i + 1] by events[i]. */
  ghost predicate IsRun(states: seq<State>, events: seq<Event>) {
    && |states| == |events| + 1
    && Init(states[0])
    && forall i :: 0 <= i < |events| ==> StepAt(states, events, i)
  }

  ghost predicate StepAt(states: seq<State>, events: seq<Event>, i: nat)
    requires i < |events| && |states| == |events| + 1
  {
    Next(states[i], events[i], states[i + 1])
  }

  // ------------------------------------------------------------------ mutual exclusion

  /** Exactly the owner of the lock is where only its owner can be. */
  ghost predicate Exclusive(s: State) {
    && (s.round != Idle <==> s.owner == Composer)
    && forall t: nat :: t < |s.pcs| ==> (Holds(s.pcs[t]) <==> s.owner == Thread(t))
  }

  lemma ExclusiveStep(s: State, e: Event, r: State)
    requires Exclusive(s) && Next(s, e, r)
    ensures Exclusive(r) && |r.pcs| == |s.pcs|
  {
  }

  /** In every reachable state. */
  lemma {:induction false} MutualExclusion(states: seq<State>, events: seq<Event>, i: nat)
    requires IsRun(states, events) && i < |states|
    ensures Exclusive(states[i]) && |states[i].pcs| == |states[0].pcs|
  {
    if i > 0 {
      MutualExclusion(states, events, i - 1);
      assert StepAt(states, events, i - 1);
      ExclusiveStep(states[i - 1], events[i - 1], states[i]);
    }
  }

  // ------------------------------------------------------------------ one whole round per wait

  /** From a to b the composer runs prepare and set once, whole, with the lock all the time. */
  ghost predicate WholeRound(states: seq<State>, events: seq<Event>, a: nat, b: nat) {
    && a < b < |events| && |states| == |events| + 1
    && events[a] == PrepareLock && events[b].SetEnd?
    && (forall c: nat :: a < c <= b ==> states[c].owner == Composer)
    && (exists c: nat :: a < c < b && events[c].PrepareExternal?)
  }

  /** While the composer is at work, where it is tells what it has done since it took the lock. */
  lemma {:induction false} RoundBegan(states: seq<State>, events: seq<Event>, i: nat) returns (a: nat, p: nat)
    requires IsRun(states, events) && i < |states| && states[i].round != Idle
    ensures a < i && events[a] == PrepareLock
    ensures forall c: nat :: a < c <= i ==> states[c].round != Idle
    ensures states[i].round != Locked ==> a < p < i && events[p].PrepareExternal?
    ensures states[i].round != Locked ==> states[p + 1].round == Prepared(states[i].round.configured)
  {
    assert i > 0;
    assert StepAt(states, events, i - 1);
    MutualExclusion(states, events, i - 1);
    if events[i - 1] == PrepareLock {
      a, p := i - 1, 0;
    } else {
      a, p := RoundBegan(states, events, i - 1);
      if events[i - 1].PrepareExternal? {
        p := i - 1;
      }
    }
  }

  /** Going back from a thread that was woken: the round that woke it, and its wait before. */
  lemma {:induction false} WokenByRound(states: seq<State>, events: seq<Event>, i: nat, j: nat, t: nat) returns (b: nat)
    requires IsRun(states, events) && i < j < |states| && t < |states[0].pcs|
    requires events[i].Write? && events[i].t == t
    requires forall k :: i < k < j ==> events[k] != WaitReturns(t)
    requires forall k: nat :: k < |states| ==> |states[k].pcs| == |states[0].pcs|
    ensures states[j].pcs[t].Ready? || states[j].pcs[t].Waiting? || states[j].pcs[t].Woken?
    ensures states[j].pcs[t].Woken? ==> i < b < j && events[b].SetEnd? && t in events[b].woken
    decreases j
  {
    b := i;
    assert StepAt(states, events, j - 1);
    if j > i + 1 {
      b := WokenByRound(states, events, i, j - 1, t);
      MutualExclusion(states, events, j - 1);
      if events[j - 1].SetEnd? && t in events[j - 1].woken {
        b := j - 1;
      }
    }
  }

  /** When wait returns, one whole round of prepare and set has run since the flags were
      written: it began after the write and ended, with the signal, before the return. */
  lemma WaitSpansRound(states: seq<State>, events: seq<Event>, i: nat, j: nat)
    requires IsRun(states, events) && i < j < |events|
    requires events[i].Write? && events[j] == WaitReturns(events[i].t)
    requires forall k :: i < k < j ==> events[k] != events[j]
    ensures exists a, b :: i < a < b < j && WholeRound(states, events, a, b)
  {
    forall k: nat | k < |states| ensures |states[k].pcs| == |states[0].pcs| && Exclusive(states[k]) {
      MutualExclusion(states, events, k);
    }
    var t := events[i].t;
    assert StepAt(states, events, i) && StepAt(states, events, j);
    var b := WokenByRound(states, events, i, j, t);
    assert StepAt(states, events, b);
    var a, p := RoundBegan(states, events, b);
    assert states[i + 1].round == Idle;
    assert i < a;
    assert WholeRound(states, events, a, b);
  }

  // ------------------------------------------------------------------ what a paused display is spared

  /** The event may let an unconnected or paused display be composed for again: the end of a
      resume, or its coming online. */
  predicate Lights(s: State, e: Event) {
    e.Online? || (e.Finish? && e.t < |s.pcs| && s.pcs[e.t] == Done(Resume))
  }

  ghost predicate NeverLit(states: seq<State>, events: seq<Event>, i: nat, j: nat) {
    |states| > |events| && forall k :: i <= k < j && k < |events| ==> !Lights(states[k], events[k])
  }

  predicate Dark(a: Attr) {
    a.paused || !a.connected
  }

  lemma {:induction false} StaysDark(states: seq<State>, events: seq<Event>, i: nat, j: nat)
    requires IsRun(states, events) && i <= j < |states|
    requires Dark(states[i].attr) && NeverLit(states, events, i, j)
    ensures Dark(states[j].attr)
    decreases j
  {
    if i < j {
      StaysDark(states, events, i, j - 1);
      assert StepAt(states, events, j - 1);
    }
  }

  /** From the write of a pause on, no prepare configures anything for the external display and
      no set commits to it, until a resume finishes or the display comes online. */
  lemma PauseSparesDisplay(states: seq<State>, events: seq<Event>, i: nat, k: nat)
    requires IsRun(states, events) && i < k < |events|
    requires events[i].Write? && events[i].why == Pause && NeverLit(states, events, i + 1, k)
    ensures events[k] == SetExternal ==> states[k].round.Prepared?
    ensures events[k].PrepareExternal? ==> states[k + 1].round == Prepared(false)
    ensures events[k] == SetExternal ==> states[k + 1].round == Committed(states[k].round.configured, false)
  {
    assert StepAt(states, events, i) && StepAt(states, events, k);
    StaysDark(states, events, i + 1, k);
  }

  /** handle_pause: unless a resume or an ONLINE event comes between, the round it waited for
      configured and committed nothing for the paused display. */
  lemma PauseWaitsForEmptyRound(states: seq<State>, events: seq<Event>, i: nat, j: nat)
    requires IsRun(states, events) && i < j < |events|
    requires events[i].Write? && events[i].why == Pause && events[j] == WaitReturns(events[i].t)
    requires forall k :: i < k < j ==> events[k] != events[j]
    requires NeverLit(states, events, i + 1, j)
    ensures exists a, b :: i < a < b < j && WholeRound(states, events, a, b) && states[b].round == Committed(false, false)
  {
    WaitSpansRound(states, events, i, j);
    var a, b :| i < a < b < j && WholeRound(states, events, a, b);
    assert StepAt(states, events, b);
    EmptyRound(states, events, i, a, b);
  }

  lemma {:induction false} EmptyRound(states: seq<State>, events: seq<Event>, i: nat, a: nat, k: nat)
    requires IsRun(states, events) && i < a < k < |events| && events[a] == PrepareLock
    requires events[i].Write? && events[i].why == Pause && NeverLit(states, events, i + 1, k)
    requires forall c: nat :: a < c <= k ==> states[c].owner == Composer
    ensures states[k].round in {Locked, Prepared(false), Committed(false, false)}
    decreases k
  {
    assert StepAt(states, events, k - 1);
    MutualExclusion(states, events, k - 1);
    if a + 1 < k {
      EmptyRound(states, events, i, a, k - 1);
      PauseSparesDisplay(states, events, i, k - 1);
    }
  }

  /** A set commits to the display only if the prepare of its round looked at the same flags:
      nobody else gets in between. */
  lemma {:induction false} RoundSeesOneState(states: seq<State>, events: seq<Event>, i: nat)
    requires IsRun(states, events) && i < |states|
    ensures states[i].round.Prepared? && states[i].round.configured ==> Bright(states[i].attr)
    ensures states[i].round.Committed? ==> (states[i].round.shown <==> Bright(states[i].attr))
    ensures states[i].round.Committed? && states[i].round.configured ==> states[i].round.shown
  {
    if i > 0 {
      RoundSeesOneState(states, events, i - 1);
      MutualExclusion(states, events, i - 1);
      assert StepAt(states, events, i - 1);
    }
  }

  // ------------------------------------------------------------------ what a resumed display is given

  /** The events that may let a display no longer be composed for. */
  predicate Darkens(e: Event) {
    e.Offline? || (e.Write? && e.why == Pause)
  }

  ghost predicate NeverDarkened(events: seq<Event>, i: nat, j: nat) {
    forall k :: i <= k < j && k < |events| ==> !Darkens(events[k])
  }

  lemma {:induction false} StaysBright(states: seq<State>, events: seq<Event>, i: nat, j: nat)
    requires IsRun(states, events) && i <= j < |states|
    requires Bright(states[i].attr) && NeverDarkened(events, i, j)
    ensures Bright(states[j].attr)
    decreases j
  {
    if i < j {
      StaysBright(states, events, i, j - 1);
      assert StepAt(states, events, j - 1);
    }
  }

  /** From the write of a resume to its end its thread is on the way, and the display is active. */
  lemma {:induction false} ResumeUnderWay(states: seq<State>, events: seq<Event>, i: nat, j: nat, t: nat)
    requires IsRun(states, events) && i < j < |states| && t < |states[0].pcs|
    requires events[i] == Write(t, Resume) && states[i].attr.connected
    requires forall k :: i < k < j ==> events[k] != Finish(t) && !events[k].Offline?
    ensures t < |states[j].pcs| && states[j].pcs[t] in {Ready(Resume), Waiting(Resume), Woken(Resume), Done(Resume)}
    ensures states[j].attr.active && states[j].attr.connected
    decreases j
  {
    assert StepAt(states, events, j - 1);
    MutualExclusion(states, events, j - 1);
    MutualExclusion(states, events, j);
    if j > i + 1 {
      ResumeUnderWay(states, events, i, j - 1, t);
    }
  }

  /** handle_resume: when it is done, a display that has stayed connected can be composed for again,
      even if it was paused once more in between. */
  lemma ResumeLights(states: seq<State>, events: seq<Event>, i: nat, j: nat)
    requires IsRun(states, events) && i < j < |events|
    requires events[i].Write? && events[i].why == Resume && events[j] == Finish(events[i].t) && states[i].attr.connected
    requires forall k :: i < k < j ==> events[k] != events[j] && !events[k].Offline?
    ensures Bright(states[j + 1].attr)
  {
    MutualExclusion(states, events, i);
    assert StepAt(states, events, i) && StepAt(states, events, j);
    ResumeUnderWay(states, events, i, j, events[i].t);
  }

  /** After its prepare a round keeps what it configured, and its set commits. */
  lemma {:induction false} BrightRound(states: seq<State>, events: seq<Event>, p: nat, k: nat)
    requires IsRun(states, events) && p < k < |events| && events[p].PrepareExternal?
    requires Bright(states[p].attr) && NeverDarkened(events, p, k)
    requires forall c: nat :: p < c <= k ==> states[c].owner == Composer
    ensures states[k].round in {Prepared(events[p].hasLayers), Committed(events[p].hasLayers, true)}
    decreases k
  {
    assert StepAt(states, events, k - 1);
    MutualExclusion(states, events, k - 1);
    MutualExclusion(states, events, k);
    if p + 1 < k {
      BrightRound(states, events, p, k - 1);
      StaysBright(states, events, p, k - 1);
    }
  }

  /** Every later round, until a pause or the display's going offline, configures the display if
      there are layers for it, and commits to it. */
  lemma ResumedRound(states: seq<State>, events: seq<Event>, i: nat, a: nat, p: nat, b: nat)
    requires IsRun(states, events) && i <= a < p < b && WholeRound(states, events, a, b)
    requires Bright(states[i].attr) && NeverDarkened(events, i, b) && events[p].PrepareExternal?
    ensures states[p + 1].round == Prepared(events[p].hasLayers)
    ensures events[p].hasLayers ==> !states[p + 1].attr.configuring
    ensures states[b].round == Committed(events[p].hasLayers, true)
  {
    StaysBright(states, events, i, p);
    BrightRound(states, events, p, b);
    assert StepAt(states, events, p) && StepAt(states, events, b);
  }

  // ------------------------------------------------------------------ giving up resources

  /** The display has been configured by a prepare, or has gone offline. */
  predicate Settles(s: State, e: Event) {
    e.Offline? || (e.PrepareExternal? && e.hasLayers && Bright(s.attr))
  }

  /** isConfiguring stays set until then; while it is, the primary display keeps off MDP. */
  lemma {:induction false} StaysConfiguring(states: seq<State>, events: seq<Event>, i: nat, j: nat)
    requires IsRun(states, events) && i <= j < |states| && states[i].attr.configuring
    requires forall k :: i <= k < j ==> !Settles(states[k], events[k])
    ensures states[j].attr.configuring
    decreases j
  {
    if i < j {
      StaysConfiguring(states, events, i, j - 1);
      assert StepAt(states, events, j - 1);
    }
  }

  /** An ONLINE event for a display that is not connected yet: the whole round that it waits for runs
      with isConfiguring set. */
  lemma GiveUpSpansRound(states: seq<State>, events: seq<Event>, i: nat, j: nat)
    requires IsRun(states, events) && i < j < |events|
    requires events[i].Write? && events[i].why == GiveUp && events[j] == WaitReturns(events[i].t) && !states[i].attr.connected
    requires forall k :: i < k < j ==> events[k] != events[j] && !events[k].Online? && !events[k].Offline?
    ensures exists a, b :: i < a < b < j && WholeRound(states, events, a, b) &&
                           forall c: nat :: a <= c <= b ==> states[c].attr.configuring
  {
    WaitSpansRound(states, events, i, j);
    var a, b :| i < a < b < j && WholeRound(states, events, a, b);
    assert StepAt(states, events, i);
    forall c: nat | a <= c <= b ensures states[c].attr.configuring {
      forall k | i < k < c ensures !Settles(states[k], events[k]) {
        StaysUnconnected(states, events, i + 1, k);
      }
      StaysConfiguring(states, events, i + 1, c);
    }
  }

  lemma {:induction false} StaysUnconnected(states: seq<State>, events: seq<Event>, i: nat, j: nat)
    requires IsRun(states, events) && i <= j < |states| && !states[i].attr.connected
    requires forall k :: i <= k < j ==> !events[k].Online?
    ensures !states[j].attr.connected
    decreases j
  {
    if i < j {
      StaysUnconnected(states, events, i, j - 1);
      assert StepAt(states, events, j - 1);
    }
  }

  // ------------------------------------------------------------------ no wait is forgotten

  function Waiters(pcs: seq<Pc>): nat {
    if pcs == [] then 0 else Waiters(pcs[..|pcs| - 1]) + (if pcs[|pcs| - 1].Waiting? then 1 else 0)
  }

  function Rounds(events: seq<Event>): nat {
    if events == [] then 0 else Rounds(events[..|events| - 1]) + (if events[|events| - 1].SetEnd? then 1 else 0)
  }

  /** Fewer threads wait when none starts to wait and at least one stops. */
  lemma {:induction false} FewerWait(pcs: seq<Pc>, after: seq<Pc>)
    requires |pcs| == |after|
    requires forall t :: 0 <= t < |pcs| && after[t].Waiting? ==> pcs[t].Waiting?
    ensures Waiters(after) <= Waiters(pcs)
    ensures (exists t :: 0 <= t < |pcs| && pcs[t].Waiting? && !after[t].Waiting?) ==> Waiters(after) < Waiters(pcs)
  {
    if pcs != [] {
      var n := |pcs| - 1;
      FewerWait(pcs[..n], after[..n]);
      if t :| 0 <= t < |pcs| && pcs[t].Waiting? && !after[t].Waiting? {
        assert t < n ==> pcs[..n][t].Waiting? && !after[..n][t].Waiting?;
      }
    }
  }

  lemma {:induction false} NoneWait(pcs: seq<Pc>)
    ensures Waiters(pcs) == 0 <==> forall t :: 0 <= t < |pcs| ==> !pcs[t].Waiting?
  {
    if pcs != [] {
      var n := |pcs| - 1;
      NoneWait(pcs[..n]);
      assert forall t :: 0 <= t < n ==> pcs[t] == pcs[..n][t];
    }
  }

  lemma WaitersStep(s: State, e: Event, r: State)
    requires Next(s, e, r) && !e.Wait? && |r.pcs| == |s.pcs|
    ensures Waiters(r.pcs) <= Waiters(s.pcs)
    ensures e.SetEnd? && Waiters(s.pcs) > 0 ==> Waiters(r.pcs) < Waiters(s.pcs)
  {
    FewerWait(s.pcs, r.pcs);
    NoneWait(s.pcs);
    if e.SetEnd? && Waiters(s.pcs) > 0 {
      assert e.woken != {};
      var t :| t in e.woken;
      assert s.pcs[t].Waiting? && !r.pcs[t].Waiting?;
    }
  }

  /** One signal a round is enough: as many rounds as there are waiting threads wake them all. */
  lemma {:induction false} RoundsWakeAll(states: seq<State>, events: seq<Event>, i: nat, j: nat)
    requires IsRun(states, events) && i <= j < |states|
    requires forall k :: i <= k < j ==> !events[k].Wait?
    ensures Waiters(states[j].pcs) == 0 || Waiters(states[j].pcs) + Rounds(events[i..j]) <= Waiters(states[i].pcs)
    ensures Rounds(events[i..j]) >= Waiters(states[i].pcs) ==>
              forall t :: 0 <= t < |states[j].pcs| ==> !states[j].pcs[t].Waiting?
    decreases j
  {
    if i < j {
      RoundsWakeAll(states, events, i, j - 1);
      assert events[i..j][..j - 1 - i] == events[i..j - 1];
      MutualExclusion(states, events, j - 1);
      MutualExclusion(states, events, j);
      assert StepAt(states, events, j - 1);
      WaitersStep(states[j - 1], events[j - 1], states[j]);
    }
    NoneWait(states[j].pcs);
  }
}

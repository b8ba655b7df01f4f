/**
 * Subscribing in exchange/huobipro.cpp and exchange/bitmex.cpp: one network thread sets
 * `wsconn_state` and `sub_state` without the mutex; any number of threads wait for them.
 */
module Handshake {
  import opened Wrappers

  /** Where a thread stands. Starting ends with `start_stream`; the rest is a subscribe call. */
  datatype Pc =
    | Starting   // waits for wsconn_state
    | Idle       // start_stream has returned
    | Sent       // the request has been sent; the mutex is not held yet
    | Testing    // holds the mutex, about to test sub_state
    | Waiting    // blocked on the condition variable; the mutex is released
    | Passed     // has seen sub_state set, about to reset it
    | Returning  // has reset sub_state

  datatype State = State(
    ws: bool,           // whether the socket pointer has been set
    wsconnState: bool,
    subState: bool,
    holder: Option<nat>,  // the thread that holds the mutex
    pcs: map<nat, Pc>,
    acks: nat,          // positive acknowledgements received so far
    overwritten: nat,   // those that came while sub_state was still set
    completed: nat,     // resets of sub_state by subscribe calls so far
    unsetUse: bool)     // whether an unset socket has been used

  datatype Action =
    | SetWs | SetConn  // the two assignments of onConnection
    | Ack              // onMessage sets sub_state
    | Started(t: nat)  // the wait of start_stream ends
    | Send(t: nat)
    | Terminate        // a caller that has not waited tests wsconn_state and terminates the socket
    | Lock(t: nat)     // first acquisition, or after waking up, for whatever reason
    | Test(t: nat)     // sub_state is read; cv.wait releases the mutex if it is false
    | Reset(t: nat)
    | Unlock(t: nat)

  /**
   * The two choices that matter: whether the mutex is held from the test to the reset,
   * and whether onConnection sets the socket before the flag.
   */
  datatype Protocol = Protocol(guarded: bool, wsFirst: bool)

  /** huobipro and bitmex. */
  const SOURCE := Protocol(true, true)

  predicate At(s: State, t: nat, pc: Pc) {
    t in s.pcs && s.pcs[t] == pc
  }

  predicate Enabled(p: Protocol, s: State, a: Action) {
    match a
    case SetWs => p.wsFirst || s.wsconnState
    case SetConn => p.wsFirst ==> s.ws
    case Ack => true
    case Started(t) => At(s, t, Starting) && s.wsconnState && s.holder == None
    case Send(t) => At(s, t, Idle)
    case Terminate => s.wsconnState
    case Lock(t) => (At(s, t, Sent) || At(s, t, Waiting)) && s.holder == None
    case Test(t) => At(s, t, Testing)
    case Reset(t) => At(s, t, Passed)
    case Unlock(t) => At(s, t, Returning)
  }

  function Next(p: Protocol, s: State, a: Action): State {
    match a
    case SetWs => s.(ws := true)
    case SetConn => s.(wsconnState := true)
    case Ack => s.(subState := true, acks := s.acks + 1, overwritten := s.overwritten + if s.subState then 1 else 0)
    case Started(t) => s.(pcs := s.pcs[t := Idle])
    case Send(t) => s.(pcs := s.pcs[t := Sent], unsetUse := s.unsetUse || !s.ws)
    case Terminate => s.(unsetUse := s.unsetUse || !s.ws)
    case Lock(t) => s.(pcs := s.pcs[t := Testing], holder := Some(t))
    case Test(t) =>
      s.(pcs := s.pcs[t := if s.subState then Passed else Waiting],
         holder := if s.subState && p.guarded then s.holder else None)
    case Reset(t) => s.(pcs := s.pcs[t := Returning], subState := false, completed := s.completed + 1)
    case Unlock(t) => s.(pcs := s.pcs[t := Idle], holder := if p.guarded then None else s.holder)
  }

  predicate Initial(s: State) {
    && !s.ws && !s.wsconnState && !s.subState && s.holder == None
    && s.acks == 0 && s.overwritten == 0 && s.completed == 0 && !s.unsetUse
    && forall t | t in s.pcs :: s.pcs[t] == Starting
  }

  /** The state after a run, in any interleaving of any threads; None if some step was impossible. */
  function After(p: Protocol, s: State, actions: seq<Action>): Option<State> {
    if actions == [] then Some(s)
    else
      var before, a := After(p, s, actions[..|actions| - 1]), actions[|actions| - 1];
      if before.None? || !Enabled(p, before.value, a) then None else Some(Next(p, before.value, a))
  }

  predicate InCritical(pc: Pc) {
    pc == Testing || pc == Passed || pc == Returning
  }

  ghost predicate MutualExclusion(s: State) {
    && (forall t | t in s.pcs :: InCritical(s.pcs[t]) <==> s.holder == Some(t))
    && (s.holder.Some? ==> s.holder.value in s.pcs)
  }

  /** Every acknowledgement was used by one subscribe call, or is pending, or was overwritten by a later one. */
  predicate AcksConserved(s: State) {
    s.acks == s.completed + s.overwritten + if s.subState then 1 else 0
  }

  ghost predicate SocketSafe(s: State) {
    && (s.wsconnState ==> s.ws)
    && (forall t | t in s.pcs :: s.pcs[t] != Starting ==> s.ws)
    && !s.unsetUse
  }

  /** A thread that passed the test finds the flag still set when it resets it. */
  ghost predicate PassedSeesFlag(s: State) {
    forall t | At(s, t, Passed) :: s.subState
  }

  lemma MutexStep(s: State, a: Action, p: Protocol)
    requires p.guarded && Enabled(p, s, a)
    requires MutualExclusion(s) && PassedSeesFlag(s) && AcksConserved(s)
    ensures MutualExclusion(Next(p, s, a)) && PassedSeesFlag(Next(p, s, a)) && AcksConserved(Next(p, s, a))
  {
    var n := Next(p, s, a);
    forall u ensures At(n, u, Passed) ==> n.subState {
      if At(s, u, Passed) && a.Reset? {
        AloneInside(s, a.t, u);
      }
      assert At(n, u, Passed) ==> At(s, u, Passed) || s.subState;
    }
  }

  lemma AloneInside(s: State, t: nat, u: nat)
    requires MutualExclusion(s) && At(s, t, Passed) && At(s, u, Passed)
    ensures t == u
  {
    assert InCritical(s.pcs[t]) && InCritical(s.pcs[u]);
  }

  lemma SocketStep(s: State, a: Action, p: Protocol)
    requires p.wsFirst && Enabled(p, s, a) && SocketSafe(s)
    ensures SocketSafe(Next(p, s, a))
  {
  }

  /**
   * While the mutex is held from test to reset, every run conserves acknowledgements: none is
   * consumed twice, so completed subscribes never exceed the acknowledgements received.
   */
  lemma {:induction false} GuardedRuns(p: Protocol, s: State, actions: seq<Action>)
    requires p.guarded && Initial(s) && After(p, s, actions).Some?
    ensures MutualExclusion(After(p, s, actions).value) && PassedSeesFlag(After(p, s, actions).value)
    ensures AcksConserved(After(p, s, actions).value)
    ensures After(p, s, actions).value.completed <= After(p, s, actions).value.acks
  {
    if actions == [] {
    } else {
      var before, a := actions[..|actions| - 1], actions[|actions| - 1];
      GuardedRuns(p, s, before);
      MutexStep(After(p, s, before).value, a, p);
    }
  }

  /** While the socket is set before the flag, no run uses an unset socket. */
  lemma {:induction false} SocketRuns(p: Protocol, s: State, actions: seq<Action>)
    requires p.wsFirst && Initial(s) && After(p, s, actions).Some?
    ensures SocketSafe(After(p, s, actions).value)
  {
    if actions == [] {
    } else {
      var before, a := actions[..|actions| - 1], actions[|actions| - 1];
      SocketRuns(p, s, before);
      SocketStep(After(p, s, before).value, a, p);
    }
  }

  /** huobipro and bitmex make both choices, so all of it holds for them. */
  lemma SourceRuns(s: State, actions: seq<Action>)
    requires Initial(s) && After(SOURCE, s, actions).Some?
    ensures AcksConserved(After(SOURCE, s, actions).value) && SocketSafe(After(SOURCE, s, actions).value)
    ensures After(SOURCE, s, actions).value.completed <= After(SOURCE, s, actions).value.acks
    ensures Returns(actions) <= Acks(actions)
  {
    GuardedRuns(SOURCE, s, actions);
    SocketRuns(SOURCE, s, actions);
    ReturnsNeedAcks(SOURCE, s, actions);
  }

  // ----- the same, in terms of the actions

  function Acks(actions: seq<Action>): nat {
    if actions == [] then 0
    else Acks(actions[..|actions| - 1]) + if actions[|actions| - 1] == Ack then 1 else 0
  }

  /** The subscribe calls that have returned; each releases the mutex last. */
  function Returns(actions: seq<Action>): nat {
    if actions == [] then 0
    else Returns(actions[..|actions| - 1]) + if actions[|actions| - 1].Unlock? then 1 else 0
  }

  /** One if a call has reset the flag and not returned yet. */
  function AboutToReturn(s: State): nat {
    if s.holder.Some? && At(s, s.holder.value, Returning) then 1 else 0
  }

  lemma ReturnsStep(p: Protocol, s: State, a: Action)
    requires p.guarded && Enabled(p, s, a) && MutualExclusion(s)
    ensures Next(p, s, a).acks == s.acks + (if a == Ack then 1 else 0)
    ensures Next(p, s, a).completed - AboutToReturn(Next(p, s, a))
         == s.completed - AboutToReturn(s) + (if a.Unlock? then 1 else 0)
  {
    if a.Test? || a.Reset? || a.Unlock? {
      assert InCritical(s.pcs[a.t]);
    }
    if a.Started? || a.Send? || a.Lock? {
      assert !InCritical(s.pcs[a.t]);
    }
  }

  /** In every run the calls that have returned are at most as many as the acknowledgements received. */
  lemma {:induction false} ReturnsNeedAcks(p: Protocol, s: State, actions: seq<Action>)
    requires p.guarded && Initial(s) && After(p, s, actions).Some?
    ensures After(p, s, actions).value.acks == Acks(actions)
    ensures After(p, s, actions).value.completed == Returns(actions) + AboutToReturn(After(p, s, actions).value)
    ensures Returns(actions) <= Acks(actions)
  {
    if actions == [] {
      assert After(p, s, actions) == Some(s);
    } else {
      hide Next, Enabled, MutualExclusion, PassedSeesFlag, AcksConserved, AboutToReturn;
      var before, a := actions[..|actions| - 1], actions[|actions| - 1];
      ReturnsNeedAcks(p, s, before);
      GuardedRuns(p, s, before);
      ReturnsStep(p, After(p, s, before).value, a);
      GuardedRuns(p, s, actions);
    }
  }

  lemma {:induction false} SocketSet(p: Protocol, s: State, actions: seq<Action>)
    requires Initial(s) && After(p, s, actions).Some?
    ensures After(p, s, actions).value.ws <==> SetWs in actions
  {
    if actions == [] {
      assert After(p, s, actions) == Some(s);
    } else {
      SocketSet(p, s, actions[..|actions| - 1]);
      assert actions == actions[..|actions| - 1] + [actions[|actions| - 1]];
    }
  }

  lemma {:induction false} AfterPrefix(p: Protocol, s: State, actions: seq<Action>, k: nat)
    requires After(p, s, actions).Some? && k <= |actions|
    ensures After(p, s, actions[..k]).Some?
    ensures k < |actions| ==> Enabled(p, After(p, s, actions[..k]).value, actions[k])
  {
    hide Enabled, Next;
    if k == |actions| {
      assert actions[..k] == actions;
    } else {
      AfterPrefix(p, s, actions[..|actions| - 1], k);
      assert actions[..|actions| - 1][..k] == actions[..k];
    }
  }

  /** In every run each send, and each termination guarded by the flag, comes after the socket is set. */
  lemma UsesFollowSetting(p: Protocol, s: State, actions: seq<Action>, k: nat)
    requires p.wsFirst && Initial(s) && After(p, s, actions).Some?
    requires k < |actions| && (actions[k].Send? || actions[k] == Terminate)
    ensures SetWs in actions[..k]
  {
    AfterPrefix(p, s, actions, k);
    SocketRuns(p, s, actions[..k]);
    SocketSet(p, s, actions[..k]);
  }

  // ----- both choices are needed

  /** Extends a run by one action. */
  lemma Then(p: Protocol, start: State, actions: seq<Action>, s: State, a: Action)
    returns (longer: seq<Action>, next: State)
    requires After(p, start, actions) == Some(s) && Enabled(p, s, a)
    ensures next == Next(p, s, a) && After(p, start, longer) == Some(next)
  {
    longer, next := actions + [a], Next(p, s, a);
    assert longer[..|longer| - 1] == actions;
  }

  function Start(threads: set<nat>): State {
    State(false, false, false, None, map t | t in threads :: Starting, 0, 0, 0, false)
  }

  lemma BothConnected(p: Protocol) returns (actions: seq<Action>, s: State)
    ensures After(p, Start({0, 1}), actions) == Some(s)
    ensures s == Start({0, 1}).(ws := true, wsconnState := true, pcs := map[0 := Idle, 1 := Idle])
  {
    actions, s := [], Start({0, 1});
    actions, s := Then(p, Start({0, 1}), actions, s, if p.wsFirst then SetWs else SetConn);
    actions, s := Then(p, Start({0, 1}), actions, s, if p.wsFirst then SetConn else SetWs);
    actions, s := Then(p, Start({0, 1}), actions, s, Started(0));
    actions, s := Then(p, Start({0, 1}), actions, s, Started(1));
  }

  /** Two connected threads that have sent their requests. */
  lemma BothSent(p: Protocol) returns (actions: seq<Action>, s: State)
    ensures After(p, Start({0, 1}), actions) == Some(s)
    ensures s == Start({0, 1}).(ws := true, wsconnState := true, pcs := map[0 := Sent, 1 := Sent])
  {
    hide After;
    actions, s := BothConnected(p);
    actions, s := Then(p, Start({0, 1}), actions, s, Send(0));
    actions, s := Then(p, Start({0, 1}), actions, s, Send(1));
  }

  /** If the mutex were released before the reset, two calls could use one acknowledgement. */
  lemma UnguardedRunExists(p: Protocol) returns (actions: seq<Action>, s: State)
    requires !p.guarded
    ensures Initial(Start({0, 1})) && After(p, Start({0, 1}), actions) == Some(s) && s.completed > s.acks
  {
    hide After;
    actions, s := BothSent(p);
    actions, s := Then(p, Start({0, 1}), actions, s, Ack);
    actions, s := Then(p, Start({0, 1}), actions, s, Lock(0));
    actions, s := Then(p, Start({0, 1}), actions, s, Test(0));
    actions, s := Then(p, Start({0, 1}), actions, s, Lock(1));
    actions, s := Then(p, Start({0, 1}), actions, s, Test(1));
    actions, s := Then(p, Start({0, 1}), actions, s, Reset(0));
    actions, s := Then(p, Start({0, 1}), actions, s, Reset(1));
  }

  /**
   * exchange/binance.cpp sets the flag before the socket, and subscribes without waiting: its
   * caller tests the flag and terminates the socket, which need not be set by then.
   */
  lemma FlagFirstRunExists(p: Protocol) returns (actions: seq<Action>, s: State)
    requires !p.wsFirst
    ensures Initial(Start({})) && After(p, Start({}), actions) == Some(s) && actions == [SetConn, Terminate]
    ensures s.wsconnState && !s.ws && s.unsetUse
  {
    var connected := Next(p, Start({}), SetConn);
    actions, s := [SetConn, Terminate], Next(p, connected, Terminate);
    assert [SetConn][..0] == [] && After(p, Start({}), [SetConn]) == Some(connected);
    assert actions[..1] == [SetConn];
  }

  // ----- lost acknowledgements

  /** No acknowledgement of the run came while an earlier one was pending. */
  ghost predicate NoneLost(p: Protocol, s: State, actions: seq<Action>)
    requires After(p, s, actions).Some?
  {
    forall k | 0 <= k < |actions| && actions[k].Ack? ::
      var r := After(p, s, actions[..k]); r.Some? && !r.value.subState
  }

  lemma NoneLostSnoc(p: Protocol, s: State, before: seq<Action>, a: Action)
    requires After(p, s, before).Some? && After(p, s, before + [a]).Some?
    ensures NoneLost(p, s, before + [a]) <==>
      NoneLost(p, s, before) && !(a.Ack? && After(p, s, before).value.subState)
  {
    hide After;
    var actions := before + [a];
    assert forall k | 0 <= k <= |before| :: actions[..k] == before[..k];
    assert before[..|before|] == before;
    if NoneLost(p, s, actions) {
      assert actions[|before|] == a;
      forall k | 0 <= k < |before| && before[k].Ack?
        ensures var r := After(p, s, before[..k]); r.Some? && !r.value.subState
      {
        assert actions[k].Ack?;
      }
    }
  }

  lemma AfterSnoc(p: Protocol, s: State, before: seq<Action>, a: Action)
    requires After(p, s, before + [a]).Some?
    ensures After(p, s, before).Some? && Enabled(p, After(p, s, before).value, a)
    ensures After(p, s, before + [a]) == Some(Next(p, After(p, s, before).value, a))
  {
    assert (before + [a])[..|before|] == before;
  }

  lemma {:induction false} OverwrittenIffLost(p: Protocol, s: State, actions: seq<Action>)
    requires Initial(s) && After(p, s, actions).Some?
    ensures After(p, s, actions).value.overwritten == 0 <==> NoneLost(p, s, actions)
  {
    if actions == [] {
      assert After(p, s, actions) == Some(s);
    } else {
      hide After, NoneLost;
      var before, a := actions[..|actions| - 1], actions[|actions| - 1];
      assert actions == before + [a];
      AfterSnoc(p, s, before, a);
      OverwrittenIffLost(p, s, before);
      NoneLostSnoc(p, s, before, a);
    }
  }

  /**
   * In every run, each acknowledgement has completed a call or is pending exactly when none
   * came while an earlier one was pending.
   */
  lemma AcksCompleteCalls(s: State, actions: seq<Action>)
    requires Initial(s) && After(SOURCE, s, actions).Some?
    ensures var r := After(SOURCE, s, actions).value;
      r.acks == r.completed + (if r.subState then 1 else 0) <==> NoneLost(SOURCE, s, actions)
  {
    hide After, NoneLost;
    SourceRuns(s, actions);
    OverwrittenIffLost(SOURCE, s, actions);
  }

  /** Two acknowledgements can be used up by one call: the second sets a flag that is still set. */
  lemma AckOverwritten() returns (actions: seq<Action>, s: State)
    ensures After(SOURCE, Start({0, 1}), actions) == Some(s)
    ensures s.acks == 2 && s.completed == 1 && !s.subState && At(s, 1, Waiting)
  {
    hide After;
    actions, s := BothSent(SOURCE);
    actions, s := Then(SOURCE, Start({0, 1}), actions, s, Ack);
    actions, s := Then(SOURCE, Start({0, 1}), actions, s, Ack);
    actions, s := Then(SOURCE, Start({0, 1}), actions, s, Lock(0));
    actions, s := Then(SOURCE, Start({0, 1}), actions, s, Test(0));
    actions, s := Then(SOURCE, Start({0, 1}), actions, s, Reset(0));
    actions, s := Then(SOURCE, Start({0, 1}), actions, s, Unlock(0));
    actions, s := Then(SOURCE, Start({0, 1}), actions, s, Lock(1));
    actions, s := Then(SOURCE, Start({0, 1}), actions, s, Test(1));
  }
}

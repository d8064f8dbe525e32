/**
 Concurrent calls of a client's Close, interleaved at every operation. Whoever finds the client open under the mutex
 marks it and closes the connection after releasing the mutex; everybody else returns.
 */
module CloseProtocol {
  import opened Bytes

  type Tid = nat

  // Where a thread is: outside, holding the mutex before the test, before the mark, before the release with or
  // without the duty to close, and before closing.
  datatype Pc = Outside | Testing | Marking | Releasing(duty: bool) | Closing

  // `closes` counts the closings of the connection; `calls` and `closer` are history.
  datatype State = State(closing: bool, holder: Option<Tid>, pcs: map<Tid, Pc>, closes: nat,
                         calls: nat, closer: Option<Tid>)

  ghost predicate Init(s: State) {
    && !s.closing && s.holder == None && s.closes == 0 && s.calls == 0 && s.closer == None
    && forall t :: t in s.pcs ==> s.pcs[t] == Outside
  }

  predicate Enabled(s: State, t: Tid) {
    t in s.pcs && (s.pcs[t] == Outside ==> s.holder == None)
  }

  // The next operation of thread t; from outside it is taking the mutex.
  function Next(s: State, t: Tid): State
    requires Enabled(s, t)
  {
    match s.pcs[t]
    case Outside => s.(holder := Some(t), pcs := s.pcs[t := Testing], calls := s.calls + 1)
    case Testing => s.(pcs := s.pcs[t := if s.closing then Releasing(false) else Marking])
    case Marking => s.(closing := true, closer := Some(t), pcs := s.pcs[t := Releasing(true)])
    case Releasing(duty) => s.(holder := None, pcs := s.pcs[t := if duty then Closing else Outside])
    case Closing => s.(closes := s.closes + 1, pcs := s.pcs[t := Outside])
  }

  ghost predicate Behaviour(states: seq<State>, steps: seq<Tid>) {
    && |states| == |steps| + 1
    && Init(states[0])
    && forall k :: 0 <= k < |steps| ==> Enabled(states[k], steps[k]) && states[k + 1] == Next(states[k], steps[k])
  }

  predicate Inside(pc: Pc) {
    pc == Testing || pc == Marking || pc.Releasing?
  }

  predicate OnDuty(pc: Pc) {
    pc == Releasing(true) || pc == Closing
  }

  // The mutex is held by the one thread inside; the client is marked by one thread, which closes it once.
  ghost predicate Inv(s: State) {
    && (forall t :: t in s.pcs ==> (Inside(s.pcs[t]) <==> s.holder == Some(t)))
    && (s.holder.Some? ==> s.holder.value in s.pcs)
    && (forall t :: t in s.pcs && s.pcs[t] == Marking ==> !s.closing)
    && (s.closing <==> s.closer.Some?)
    && (s.closing ==> s.closer.value in s.pcs && s.closes == if OnDuty(s.pcs[s.closer.value]) then 0 else 1)
    && (forall t :: t in s.pcs && OnDuty(s.pcs[t]) ==> s.closer == Some(t))
    && (!s.closing ==> s.closes == 0 && (s.calls > 0 ==> s.holder.Some?))
    && (forall t :: t in s.pcs && s.pcs[t] == Releasing(false) ==> s.closing)
  }

  lemma NextKeeps(s: State, t: Tid)
    requires Inv(s) && Enabled(s, t)
    ensures Inv(Next(s, t))
  {}

  lemma {:induction false} InvAlways(states: seq<State>, steps: seq<Tid>, k: nat)
    requires Behaviour(states, steps) && k < |states|
    ensures Inv(states[k])
  {
    if k > 0 {
      InvAlways(states, steps, k - 1);
      NextKeeps(states[k - 1], steps[k - 1]);
    }
  }

  /** At no moment of any interleaving was the connection closed twice. */
  lemma ClosedAtMostOnce(states: seq<State>, steps: seq<Tid>, k: nat)
    requires Behaviour(states, steps) && k < |states|
    ensures states[k].closes <= 1
  {
    InvAlways(states, steps, k);
  }

  /** When no call is under way, the connection is closed exactly if there ever was a call. */
  lemma ClosedByThen(states: seq<State>, steps: seq<Tid>, k: nat)
    requires Behaviour(states, steps) && k < |states|
    requires forall t :: t in states[k].pcs ==> states[k].pcs[t] == Outside
    ensures states[k].closes == if states[k].calls > 0 then 1 else 0
  {
    InvAlways(states, steps, k);
    CallsMark(states, steps, k);
  }

  lemma {:induction false} CallsMark(states: seq<State>, steps: seq<Tid>, k: nat)
    requires Behaviour(states, steps) && k < |states|
    ensures states[k].calls == 0 ==>
              !states[k].closing && forall t :: t in states[k].pcs ==> states[k].pcs[t] == Outside
  {
    if k > 0 {
      CallsMark(states, steps, k - 1);
    }
  }

  // The next operation of thread t ends its call.
  predicate Returns(s: State, t: Tid) {
    t in s.pcs && (s.pcs[t] == Releasing(false) || s.pcs[t] == Closing)
  }

  /** A call that returns finds the connection closed exactly when no other thread still has the duty to close it. */
  lemma ClosedAtReturn(states: seq<State>, steps: seq<Tid>, k: nat)
    requires Behaviour(states, steps) && k < |steps| && Returns(states[k], steps[k])
    ensures states[k + 1].pcs[steps[k]] == Outside
    ensures states[k + 1].closes == 1 <==>
            forall u :: u in states[k].pcs && u != steps[k] ==> !OnDuty(states[k].pcs[u])
  {
    InvAlways(states, steps, k);
    InvAlways(states, steps, k + 1);
  }

  /** A call that finds the client already marked can return while the connection is still open. */
  lemma ReturnsEarly() returns (states: seq<State>, steps: seq<Tid>, k: nat)
    ensures Behaviour(states, steps) && k + 1 < |states|
    ensures states[k].pcs[steps[k]] == Releasing(false) && states[k + 1].pcs[steps[k]] == Outside
    ensures states[k + 1].closes == 0
  {
    var s0 := State(false, None, map[0 := Outside, 1 := Outside], 0, 0, None);
    var s1 := Next(s0, 0);
    var s2 := Next(s1, 0);
    var s3 := Next(s2, 0);
    var s4 := Next(s3, 0);
    var s5 := Next(s4, 1);
    var s6 := Next(s5, 1);
    var s7 := Next(s6, 1);
    states, steps, k := [s0, s1, s2, s3, s4, s5, s6, s7], [0, 0, 0, 0, 1, 1, 1], 6;
  }
}

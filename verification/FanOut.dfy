/**
 One scrape of all resolved devices: a goroutine for each, joined through a wait group. Any of them may panic at any
 point of its work; the deferred recovery turns that into an early end.
 */
module FanOut {
  import opened Bytes

  // Resolving the configured devices

  // A configured device, with the answer to this scrape's lookup if it is defined by a service.
  datatype Target = Fixed(id: nat) | Service(id: nat, answer: Option<seq<string>>)

  // A device to collect: a configured one, or one made for an address in a lookup's answer.
  datatype Device = Configured(id: nat) | Found(id: nat, address: string)

  function DevicesOf(t: Target): seq<Device> {
    match t
    case Fixed(id) => [Configured(id)]
    case Service(id, None) => []
    case Service(id, Some(addresses)) => seq(|addresses|, j requires 0 <= j < |addresses| => Found(id, addresses[j]))
  }

  function Resolved(targets: seq<Target>): seq<Device> {
    if targets == [] then [] else Resolved(targets[..|targets| - 1]) + DevicesOf(targets[|targets| - 1])
  }

  method DevicesFromSrv(id: nat, addresses: seq<string>) returns (devices: seq<Device>)
    ensures devices == DevicesOf(Service(id, Some(addresses)))
  {
    devices := [];
    for j := 0 to |addresses|
      invariant |devices| == j && forall k :: 0 <= k < j ==> devices[k] == Found(id, addresses[k])
    {
      devices := devices + [Found(id, addresses[j])];
    }
  }

  method RealDevices(targets: seq<Target>) returns (devices: seq<Device>)
    ensures devices == Resolved(targets)
  {
    devices := [];
    for i := 0 to |targets|
      invariant devices == Resolved(targets[..i])
    {
      assert targets[..i + 1][..i] == targets[..i];
      match targets[i]
      case Fixed(id) =>
        devices := devices + [Configured(id)];
      case Service(id, None) =>
      case Service(id, Some(addresses)) =>
        var found := DevicesFromSrv(id, addresses);
        devices := devices + found;
    }
    assert targets[..|targets|] == targets;
  }

  // Where the devices of the i-th target start.
  function StartOf(targets: seq<Target>, i: nat): nat
    requires i <= |targets|
  {
    |Resolved(targets[..i])|
  }

  lemma {:induction false} ResolvedAt(targets: seq<Target>, i: nat, j: nat)
    requires i < |targets| && j < |DevicesOf(targets[i])|
    ensures StartOf(targets, i) + j < |Resolved(targets)|
    ensures Resolved(targets)[StartOf(targets, i) + j] == DevicesOf(targets[i])[j]
  {
    hide DevicesOf;
    var last := |targets| - 1;
    if i < last {
      ResolvedAt(targets[..last], i, j);
      assert targets[..last][..i] == targets[..i];
    }
  }

  /**
   Place by place, without the list of a target's own: a configured device takes one place, an answered lookup one for
   each of its addresses in order, and a failed lookup none.
   */
  lemma ResolvedPlaces(targets: seq<Target>, i: nat)
    requires i < |targets|
    ensures StartOf(targets, 0) == 0 && StartOf(targets, |targets|) == |Resolved(targets)|
    ensures StartOf(targets, i + 1) == StartOf(targets, i) +
            match targets[i]
            case Fixed(_) => 1
            case Service(_, None) => 0
            case Service(_, Some(addresses)) => |addresses|
    ensures StartOf(targets, i + 1) <= |Resolved(targets)|
    ensures targets[i].Fixed? ==> Resolved(targets)[StartOf(targets, i)] == Configured(targets[i].id)
    ensures targets[i].Service? && targets[i].answer.Some? ==>
              forall j :: 0 <= j < |targets[i].answer.value| ==>
                Resolved(targets)[StartOf(targets, i) + j] == Found(targets[i].id, targets[i].answer.value[j])
  {
    hide Resolved;
    StartsAt(targets, i);
    match targets[i]
    case Fixed(id) =>
      ResolvedAt(targets, i, 0);
      assert DevicesOf(targets[i])[0] == Configured(id);
    case Service(_, None) =>
    case Service(id, Some(addresses)) =>
      forall j | 0 <= j < |addresses| ensures Resolved(targets)[StartOf(targets, i) + j] == Found(id, addresses[j]) {
        ResolvedAt(targets, i, j);
        assert DevicesOf(targets[i])[j] == Found(id, addresses[j]);
      }
  }

  lemma StartsAt(targets: seq<Target>, i: nat)
    requires i < |targets|
    ensures StartOf(targets, 0) == 0 && StartOf(targets, |targets|) == |Resolved(targets)|
    ensures StartOf(targets, i + 1) == StartOf(targets, i) + |DevicesOf(targets[i])|
    ensures StartOf(targets, i + 1) <= |Resolved(targets)|
  {
    hide DevicesOf;
    assert targets[..0] == [] && targets[..|targets|] == targets && targets[..i + 1][..i] == targets[..i];
    StartGrows(targets, i + 1);
  }

  lemma {:induction false} StartGrows(targets: seq<Target>, i: nat)
    requires i <= |targets|
    ensures |Resolved(targets[..i])| <= |Resolved(targets)|
  {
    hide DevicesOf;
    if i < |targets| {
      StartGrows(targets[..|targets| - 1], i);
      assert targets[..|targets| - 1][..i] == targets[..i];
    } else {
      assert targets[..i] == targets;
    }
  }

  // Which device of which target is the one at position w.
  lemma {:induction false} ResolvedFrom(targets: seq<Target>, w: nat) returns (i: nat, j: nat)
    requires w < |Resolved(targets)|
    ensures i < |targets| && j < |DevicesOf(targets[i])| && w == StartOf(targets, i) + j
  {
    hide DevicesOf;
    var last := |targets| - 1;
    var before := |Resolved(targets[..last])|;
    if w < before {
      i, j := ResolvedFrom(targets[..last], w);
      assert targets[..last][..i] == targets[..i];
    } else {
      i, j := last, w - before;
    }
  }

  // The goroutine w is for the j-th device of the i-th target.
  predicate At(targets: seq<Target>, i: nat, j: nat, w: nat) {
    i < |targets| && j < |DevicesOf(targets[i])| && w == StartOf(targets, i) + j
  }

  ghost predicate Taken(targets: seq<Target>, w: nat) {
    exists i: nat, j: nat :: At(targets, i, j, w)
  }

  // Goroutines

  // What reaches the outside: a device's collection starts, a collector sends a metric, the goroutine sends one of its
  // own metrics (success, errors, duration), a recovered panic is logged, the scrape returns.
  datatype Event =
    | Collect(worker: nat) | Send(worker: nat) | Own(worker: nat, metric: nat) | Recovered(worker: nat) | Return

  // A goroutine: before its work, inside collect, after some of its own metrics, before wg.Done, at its end.
  datatype Worker = Starting | Collecting | Reporting(sent: nat) | Leaving(sent: nat) | Gone(sent: nat)

  datatype Main = Spawning(next: nat) | Waiting | Returned

  datatype State = State(devices: nat, main: Main, counter: int, workers: seq<Worker>, log: seq<Event>)

  const REPORTS: nat := 3

  datatype Step =
    | Spawn | Wait | Join
    | Begin(i: nat) | Emit(i: nat) | EndCollect(i: nat) | Report(i: nat) | Finish(i: nat) | Panic(i: nat) | Done(i: nat)

  // The counter is raised by the number of devices before the first goroutine starts.
  function Init(devices: nat): State {
    State(devices, Spawning(0), devices, [], [])
  }

  function Goes(s: State, i: nat, w: Worker, events: seq<Event>): State
    requires i < |s.workers|
  {
    s.(workers := s.workers[i := w], log := s.log + events)
  }

  function SentBy(w: Worker): nat {
    if w.Starting? || w.Collecting? then 0 else w.sent
  }

  predicate Enabled(s: State, step: Step) {
    match step
    case Spawn => s.main.Spawning? && s.main.next < s.devices
    case Wait => s.main == Spawning(s.devices)
    case Join => s.main == Waiting && s.counter == 0
    case Begin(i) => i < |s.workers| && s.workers[i] == Starting
    case Emit(i) => i < |s.workers| && s.workers[i] == Collecting
    case EndCollect(i) => i < |s.workers| && s.workers[i] == Collecting
    case Report(i) => i < |s.workers| && s.workers[i].Reporting? && s.workers[i].sent < REPORTS
    case Finish(i) => i < |s.workers| && s.workers[i] == Reporting(REPORTS)
    case Panic(i) =>
      && i < |s.workers|
      && (s.workers[i] == Collecting || (s.workers[i].Reporting? && s.workers[i].sent < REPORTS))
    case Done(i) => i < |s.workers| && s.workers[i].Leaving?
  }

  function Next(s: State, step: Step): State
    requires Enabled(s, step)
  {
    match step
    case Spawn => s.(main := Spawning(s.main.next + 1), workers := s.workers + [Starting])
    case Wait => s.(main := Waiting)
    case Join => s.(main := Returned, log := s.log + [Return])
    case Begin(i) => Goes(s, i, Collecting, [Collect(i)])
    case Emit(i) => Goes(s, i, Collecting, [Send(i)])
    case EndCollect(i) => Goes(s, i, Reporting(0), [])
    case Report(i) => Goes(s, i, Reporting(SentBy(s.workers[i]) + 1), [Own(i, SentBy(s.workers[i]))])
    case Finish(i) => Goes(s, i, Leaving(REPORTS), [])
    case Panic(i) => Goes(s, i, Leaving(SentBy(s.workers[i])), [Recovered(i)])
    case Done(i) => Goes(s, i, Gone(SentBy(s.workers[i])), []).(counter := s.counter - 1)
  }

  // Every finite interleaving.
  predicate Behaviour(devices: nat, states: seq<State>, steps: seq<Step>) {
    && |states| == |steps| + 1
    && states[0] == Init(devices)
    && forall k :: 0 <= k < |steps| ==> Enabled(states[k], steps[k]) && states[k + 1] == Next(states[k], steps[k])
  }

  function Finished(workers: seq<Worker>): nat {
    if workers == [] then 0 else Finished(workers[..|workers| - 1]) + if workers[|workers| - 1].Gone? then 1 else 0
  }

  lemma {:induction false} FinishedBound(workers: seq<Worker>)
    ensures Finished(workers) <= |workers|
    ensures Finished(workers) == |workers| <==> forall i :: 0 <= i < |workers| ==> workers[i].Gone?
  {
    if workers != [] {
      var init := workers[..|workers| - 1];
      FinishedBound(init);
      if forall i :: 0 <= i < |init| ==> init[i].Gone? {
        assert forall i :: 0 <= i < |init| ==> workers[i] == init[i];
      }
    }
  }

  lemma {:induction false} FinishedUpdate(workers: seq<Worker>, i: nat, w: Worker)
    requires i < |workers| && !workers[i].Gone?
    ensures Finished(workers[i := w]) == Finished(workers) + if w.Gone? then 1 else 0
  {
    var last := |workers| - 1;
    if i < last {
      FinishedUpdate(workers[..last], i, w);
      assert workers[i := w][..last] == workers[..last][i := w];
    } else {
      assert workers[i := w][..last] == workers[..last];
    }
  }

  // The invariant

  // Events of goroutine i so far: its device's collection once begun, the first of its own metrics each once, and a
  // recovery exactly if it leaves with one of them missing.
  ghost predicate Counts(log: seq<Event>, i: nat, w: Worker) {
    && multiset(log)[Collect(i)] == (if w == Starting then 0 else 1)
    && multiset(log)[Recovered(i)] == (if (w.Leaving? || w.Gone?) && w.sent < REPORTS then 1 else 0)
    && forall n: nat :: multiset(log)[Own(i, n)] == if n < SentBy(w) then 1 else 0
  }

  function WorkerAt(workers: seq<Worker>, i: nat): Worker {
    if i < |workers| then workers[i] else Starting
  }

  ghost predicate AllCounts(log: seq<Event>, workers: seq<Worker>) {
    forall i: nat :: Counts(log, i, WorkerAt(workers, i))
  }

  ghost predicate Inv(s: State) {
    && |s.workers| == (if s.main.Spawning? then s.main.next else s.devices)
    && |s.workers| <= s.devices
    && s.counter == s.devices - Finished(s.workers)
    && AllCounts(s.log, s.workers)
    && (s.main == Returned ==> s.counter == 0)
    && (forall i :: 0 <= i < |s.workers| ==> SentBy(s.workers[i]) <= REPORTS)
  }

  lemma SpawnKeeps(s: State)
    requires Inv(s) && Enabled(s, Spawn)
    ensures Inv(Next(s, Spawn))
  {
    var all := s.workers + [Starting];
    assert all[..|s.workers|] == s.workers;
    forall i: nat ensures WorkerAt(all, i) == WorkerAt(s.workers, i) {}
    hide Counts;
    assert AllCounts(s.log, all);
  }

  lemma WaitKeeps(s: State)
    requires Inv(s) && Enabled(s, Wait)
    ensures Inv(Next(s, Wait))
  {}

  lemma JoinKeeps(s: State)
    requires Inv(s) && Enabled(s, Join)
    ensures Inv(Next(s, Join))
  {
    hide AllCounts;
    OthersCount(s.log, s.workers, [Return]);
  }

  // Events of no goroutine change no count.
  lemma OthersCount(log: seq<Event>, workers: seq<Worker>, events: seq<Event>)
    requires AllCounts(log, workers) && events == [Return]
    ensures AllCounts(log + events, workers)
  {
    assert multiset(log + events) == multiset(log) + multiset{Return};
    forall i: nat ensures Counts(log + events, i, WorkerAt(workers, i)) {
      assert Counts(log, i, WorkerAt(workers, i));
    }
  }

  // The moves of goroutine i with their events.
  predicate Moves(i: nat, w: Worker, w': Worker, events: seq<Event>) {
    match w
    case Starting => w' == Collecting && events == [Collect(i)]
    case Collecting =>
      || (w' == Collecting && events == [Send(i)])
      || (w' == Reporting(0) && events == [])
      || (w' == Leaving(0) && events == [Recovered(i)])
    case Reporting(n) =>
      if n < REPORTS then
        (w' == Reporting(n + 1) && events == [Own(i, n)]) || (w' == Leaving(n) && events == [Recovered(i)])
      else n == REPORTS && w' == Leaving(n) && events == []
    case Leaving(n) => w' == Gone(n) && events == []
    case Gone(_) => false
  }

  lemma OneMoreEvent(log: seq<Event>, events: seq<Event>, e: Event)
    requires |events| <= 1
    ensures multiset(log + events)[e] == multiset(log)[e] + if events == [e] then 1 else 0
  {
    assert multiset(log + events) == multiset(log) + multiset(events);
  }

  lemma MoveCounts(log: seq<Event>, i: nat, w: Worker, w': Worker, events: seq<Event>)
    requires Counts(log, i, w) && Moves(i, w, w', events)
    ensures Counts(log + events, i, w')
  {
    OneMoreEvent(log, events, Collect(i));
    OneMoreEvent(log, events, Recovered(i));
    forall n: nat ensures multiset(log + events)[Own(i, n)] == if n < SentBy(w') then 1 else 0 {
      OneMoreEvent(log, events, Own(i, n));
    }
  }

  lemma OtherCounts(log: seq<Event>, i: nat, w: Worker, w': Worker, events: seq<Event>, j: nat, other: Worker)
    requires Moves(i, w, w', events) && j != i && Counts(log, j, other)
    ensures Counts(log + events, j, other)
  {
    OneMoreEvent(log, events, Collect(j));
    OneMoreEvent(log, events, Recovered(j));
    forall n: nat ensures multiset(log + events)[Own(j, n)] == if n < SentBy(other) then 1 else 0 {
      OneMoreEvent(log, events, Own(j, n));
    }
  }

  lemma GoesKeeps(s: State, i: nat, w: Worker, events: seq<Event>)
    requires Inv(s) && i < |s.workers| && Moves(i, s.workers[i], w, events)
    ensures Inv(Goes(s, i, w, events).(counter := s.counter - if w.Gone? then 1 else 0))
  {
    hide Counts, Finished;
    var workers := s.workers[i := w];
    forall j: nat ensures Counts(s.log + events, j, WorkerAt(workers, j)) {
      assert Counts(s.log, j, WorkerAt(s.workers, j));
      if j == i {
        MoveCounts(s.log, i, s.workers[i], w, events);
      } else {
        OtherCounts(s.log, i, s.workers[i], w, events, j, WorkerAt(s.workers, j));
      }
    }
    FinishedUpdate(s.workers, i, w);
    FinishedBound(s.workers);
  }

  lemma NextKeeps(s: State, step: Step)
    requires Inv(s) && Enabled(s, step)
    ensures Inv(Next(s, step))
  {
    hide Inv, Finished;
    match step
    case Spawn => SpawnKeeps(s);
    case Wait => WaitKeeps(s);
    case Join => JoinKeeps(s);
    case Begin(i) => GoesKeeps(s, i, Collecting, [Collect(i)]);
    case Emit(i) => GoesKeeps(s, i, Collecting, [Send(i)]);
    case EndCollect(i) => GoesKeeps(s, i, Reporting(0), []);
    case Report(i) => GoesKeeps(s, i, Reporting(SentBy(s.workers[i]) + 1), [Own(i, SentBy(s.workers[i]))]);
    case Finish(i) => GoesKeeps(s, i, Leaving(REPORTS), []);
    case Panic(i) => GoesKeeps(s, i, Leaving(SentBy(s.workers[i])), [Recovered(i)]);
    case Done(i) => GoesKeeps(s, i, Gone(SentBy(s.workers[i])), []);
  }

  lemma {:induction false} InvAlways(devices: nat, states: seq<State>, steps: seq<Step>, k: nat)
    requires Behaviour(devices, states, steps) && k < |states|
    ensures Inv(states[k]) && states[k].devices == devices
  {
    if k > 0 {
      InvAlways(devices, states, steps, k - 1);
      NextKeeps(states[k - 1], steps[k - 1]);
    }
  }

  // Safety

  /** When the scrape has returned, every device was collected exactly once and every goroutine is at its end. */
  lemma AllCollected(devices: nat, states: seq<State>, steps: seq<Step>, k: nat)
    requires Behaviour(devices, states, steps) && k < |states| && states[k].main == Returned
    ensures forall i :: 0 <= i < devices ==> multiset(states[k].log)[Collect(i)] == 1
    ensures |states[k].workers| == devices
    ensures forall i :: 0 <= i < devices ==> states[k].workers[i].Gone?
  {
    InvAlways(devices, states, steps, k);
    FinishedBound(states[k].workers);
    forall i | 0 <= i < devices ensures multiset(states[k].log)[Collect(i)] == 1 {
      assert Counts(states[k].log, i, WorkerAt(states[k].workers, i));
    }
  }

  /**
   When the scrape has returned, a goroutine has sent each of its own three metrics exactly once, unless it was stopped
   by a panic: then it logged one recovery and sent only the first of them, not all.
   */
  lemma ReportsSent(devices: nat, states: seq<State>, steps: seq<Step>, k: nat, i: nat) returns (sent: nat)
    requires Behaviour(devices, states, steps) && k < |states| && states[k].main == Returned && i < devices
    ensures sent <= REPORTS
    ensures forall n: nat :: multiset(states[k].log)[Own(i, n)] == if n < sent then 1 else 0
    ensures multiset(states[k].log)[Recovered(i)] == if sent == REPORTS then 0 else 1
  {
    InvAlways(devices, states, steps, k);
    AllCollected(devices, states, steps, k);
    assert Counts(states[k].log, i, WorkerAt(states[k].workers, i));
    sent := states[k].workers[i].sent;
  }

  // The goroutine at place w is for device d, which was collected once.
  ghost predicate PlaceOnce(targets: seq<Target>, w: nat, d: Device, log: seq<Event>) {
    w < |Resolved(targets)| && Resolved(targets)[w] == d && multiset(log)[Collect(w)] == 1
  }

  // The configured device, or every address of the answer at a place of its own, was collected once.
  ghost predicate CollectedOnce(targets: seq<Target>, i: nat, log: seq<Event>)
    requires i < |targets|
  {
    match targets[i]
    case Fixed(id) => PlaceOnce(targets, StartOf(targets, i), Configured(id), log)
    case Service(_, None) => true
    case Service(id, Some(addresses)) =>
      forall j :: 0 <= j < |addresses| ==> PlaceOnce(targets, StartOf(targets, i) + j, Found(id, addresses[j]), log)
  }

  /**
   When the scrape has returned, every configured device, and every address a lookup answered with, was collected
   exactly once by a goroutine of its own; a service whose lookup failed took no goroutine.
   */
  lemma TargetsCollected(targets: seq<Target>, states: seq<State>, steps: seq<Step>, k: nat)
    requires Behaviour(|Resolved(targets)|, states, steps) && k < |states| && states[k].main == Returned
    ensures forall i: nat, j: nat, w: nat :: At(targets, i, j, w) ==>
              && w < |Resolved(targets)| && Resolved(targets)[w] == DevicesOf(targets[i])[j]
              && multiset(states[k].log)[Collect(w)] == 1
    ensures forall w :: 0 <= w < |Resolved(targets)| ==> Taken(targets, w)
    ensures forall i :: 0 <= i < |targets| ==> CollectedOnce(targets, i, states[k].log)
  {
    hide Resolved, DevicesOf, StartOf, Behaviour;
    AllCollected(|Resolved(targets)|, states, steps, k);
    forall i | 0 <= i < |targets| ensures CollectedOnce(targets, i, states[k].log) {
      ResolvedPlaces(targets, i);
    }
    forall i: nat, j: nat, w: nat | At(targets, i, j, w)
      ensures w < |Resolved(targets)| && Resolved(targets)[w] == DevicesOf(targets[i])[j]
    {
      ResolvedAt(targets, i, j);
    }
    forall w | 0 <= w < |Resolved(targets)| ensures Taken(targets, w) {
      var i, j := ResolvedFrom(targets, w);
      assert At(targets, i, j, w);
    }
  }

  /** Nothing happens after the return: no metric is sent, whichever goroutines panicked. */
  lemma {:induction false} SilentAfterReturn(devices: nat, states: seq<State>, steps: seq<Step>, k: nat, m: nat)
    requires Behaviour(devices, states, steps) && k <= m < |states| && states[k].main == Returned
    ensures m == k && states[m] == states[k]
  {
    InvAlways(devices, states, steps, k);
    if k < |steps| {
      NothingLeft(states[k], steps[k]);
    }
  }

  lemma NothingLeft(s: State, step: Step)
    requires Inv(s) && s.main == Returned
    ensures !Enabled(s, step)
  {
    FinishedBound(s.workers);
  }

  /** The wait group's counter never becomes negative. */
  lemma CounterNotNegative(devices: nat, states: seq<State>, steps: seq<Step>, k: nat)
    requires Behaviour(devices, states, steps) && k < |states|
    ensures 0 <= states[k].counter <= devices
  {
    InvAlways(devices, states, steps, k);
    FinishedBound(states[k].workers);
  }

  /** The scrape cannot get stuck: until it has returned some step is possible. */
  lemma NeverStuck(devices: nat, states: seq<State>, steps: seq<Step>, k: nat) returns (step: Step)
    requires Behaviour(devices, states, steps) && k < |states| && states[k].main != Returned
    ensures Enabled(states[k], step)
  {
    InvAlways(devices, states, steps, k);
    var s := states[k];
    FinishedBound(s.workers);
    if s.main.Spawning? {
      step := if s.main.next < devices then Spawn else Wait;
    } else if s.counter == 0 {
      step := Join;
    } else {
      var i :| 0 <= i < |s.workers| && !s.workers[i].Gone?;
      step := match s.workers[i]
        case Starting => Begin(i)
        case Collecting => EndCollect(i)
        case Reporting(n) => if n < REPORTS then Report(i) else Finish(i)
        case Leaving(_) => Done(i)
        case Gone(_) => Wait;
    }
  }
}

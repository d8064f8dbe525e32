/**
 The collector of one device, scrape after scrape: its cached connection, its error counter and its firmware
 version. What the network and the device do during one scrape is a script.
 */
module DeviceCollector {
  import opened Bytes
  import opened CircuitBreaker

  type Conn = nat

  // Dialling and closing, in the order in which they happen.
  datatype Event = Dialed(conn: Conn) | Closed(conn: Conn)

  datatype Ending = Fine | Error | Panics

  // Asking for the version: the major number it stores, if it gets that far, and how it ends.
  datatype Version = Version(major: Option<int>, ending: Ending)

  /**
   What happens outside during one scrape: whether the cached connection answers the probe, whether dialling,
   login and the identity lookup succeed, how the version lookup ends, and what every collector does.
   */
  datatype Script = Script(alive: bool, dials: bool, logsIn: bool, identifies: bool, version: Version,
                           visits: seq<Visit>)

  datatype Scraped = Succeeded | ConnectError | VersionError | CollectError(gathered: Gathered) | Recovered

  // The fields of a device collector, with the log of its connections.
  datatype Device = Device(cl: Option<Conn>, errors: nat, major: int, isSrv: bool, collectors: nat,
                           log: seq<Event>, next: Conn)

  function New(isSrv: bool, collectors: nat): Device {
    Device(None, 0, 0, isSrv, collectors, [], 0)
  }

  // The connection to use, if any. A cached one that does not answer is closed and replaced.
  function Connected(d: Device, s: Script): (Device, Option<Conn>) {
    if d.cl.Some? && s.alive then (d, d.cl) else
      var d1 := if d.cl.Some? then d.(cl := None, log := d.log + [Closed(d.cl.value)]) else d;
      if !s.dials then (d1, None) else
        var c := d1.next;
        var d2 := d1.(log := d1.log + [Dialed(c)], next := c + 1);
        if !s.logsIn then (d2.(log := d2.log + [Closed(c)]), None)
        else if d2.isSrv && !s.identifies then (d2, None)
        else (d2.(cl := Some(c)), Some(c))
  }

  function Disconnected(d: Device): Device {
    if d.isSrv && d.cl.Some? then d.(cl := None, log := d.log + [Closed(d.cl.value)]) else d
  }

  function Scrape(d: Device, s: Script): (r: (Device, Scraped))
    requires |s.visits| == d.collectors
    ensures r.0.collectors == d.collectors && r.0.isSrv == d.isSrv
  {
    var (d1, client) := Connected(d, s);
    if client.None? then (d1.(major := 0, errors := d1.errors + d1.collectors), ConnectError) else
      var asks := d1.major == 0;
      var d2 := if asks && s.version.major.Some? then d1.(major := s.version.major.value) else d1;
      if asks && s.version.ending == Error then
        (Disconnected(d2.(errors := d2.errors + d2.collectors)), VersionError)
      else if asks && s.version.ending == Panics then (Disconnected(d2), Recovered)
      else
        var g := Gather(s.visits);
        var d3 := Disconnected(d2.(errors := d2.errors + FailuresRun(s.visits)));
        (d3, if g.Panicked? then Recovered else if IsNil(g) then Succeeded else CollectError(g))
  }

  /** The object whose fields the scrapes update. */
  class Collector {
    var cl: Option<Conn>
    var errors: nat
    var major: int
    const isSrv: bool
    const collectors: nat
    ghost var log: seq<Event>
    var next: Conn

    constructor (isSrv: bool, collectors: nat)
      ensures View() == New(isSrv, collectors)
    {
      this.isSrv, this.collectors := isSrv, collectors;
      cl, errors, major, next := None, 0, 0, 0;
      log := [];
    }

    ghost function View(): Device
      reads this
    {
      Device(cl, errors, major, isSrv, collectors, log, next)
    }

    method Close(c: Conn)
      modifies this`log
      ensures log == old(log) + [Closed(c)]
    {
      log := log + [Closed(c)];
    }

    method Dial() returns (c: Conn)
      modifies this`log, this`next
      ensures c == old(next) && next == c + 1 && log == old(log) + [Dialed(c)]
    {
      c := next;
      next := next + 1;
      log := log + [Dialed(c)];
    }

    method Disconnect()
      modifies this`cl, this`log
      ensures View() == Disconnected(old(View()))
    {
      if isSrv {
        if cl.Some? {
          Close(cl.value);
          cl := None;
        }
      }
    }

    method Connect(s: Script) returns (client: Option<Conn>)
      modifies this`cl, this`log, this`next
      ensures (View(), client) == Connected(old(View()), s)
    {
      if cl.Some? {
        if s.alive {
          return cl;
        }
        Close(cl.value);
        cl := None;
      }
      if !s.dials {
        return None;
      }
      var c := Dial();
      if !s.logsIn {
        Close(c);
        return None;
      }
      if isSrv && !s.identifies {
        return None;
      }
      cl := Some(c);
      return cl;
    }

    /**
     Runs the collectors in order. The result is the meaning of the visits, and the error counter grows by exactly
     the failures among the collectors that ran, also when one of them panics.
     */
    method GatherMetrics(visits: seq<Visit>) returns (g: Gathered)
      requires |visits| == collectors
      modifies this`errors
      ensures g == Gather(visits)
      ensures errors == old(errors) + FailuresRun(visits)
    {
      hide Streak, StopsAt, Ran, Failed, Gather, FailuresRun, FiveFailures;
      var collectErrors := 0;
      var result: seq<nat> := [];
      NoVisits(visits);
      for i := 0 to |visits|
        invariant i <= Ran(visits, 0) && !StopsAt(visits, i)
        invariant collectErrors == Streak(visits, i) < STOP_AFTER_ERRORS
        invariant result == Failed(visits, i)
        invariant errors == old(errors) + |result|
        invariant i == |visits| ==> Gather(visits) == Returned(result, false) && FailuresRun(visits) == |result|
      {
        NextVisit(visits, i);
        var visit := visits[i];
        if visit.result == Panic {
          return Panicked;
        }
        if visit.result == Bad {
          result := result + [i];
          errors := errors + 1;
          collectErrors := collectErrors + 1;
          if collectErrors == STOP_AFTER_ERRORS {
            return Returned(result, true);
          }
        } else {
          collectErrors := 0;
        }
        if visit.cancelled {
          return Returned(result, false);
        }
      }
      return Returned(result, false);
    }

    /** One scrape; a panic is recovered by the caller after the deferred disconnect has run. */
    method Collect(s: Script) returns (r: Scraped)
      requires |s.visits| == collectors
      modifies this
      ensures (View(), r) == Scrape(old(View()), s)
    {
      var client := Connect(s);
      if client.None? {
        major := 0;
        errors := errors + collectors;
        return ConnectError;
      }
      if major == 0 {
        if s.version.major.Some? {
          major := s.version.major.value;
        }
        if s.version.ending == Error {
          errors := errors + collectors;
          Disconnect();
          return VersionError;
        }
        if s.version.ending == Panics {
          Disconnect();
          return Recovered;
        }
      }
      var g := GatherMetrics(s.visits);
      Disconnect();
      if g.Panicked? {
        return Recovered;
      }
      if IsNil(g) {
        return Succeeded;
      }
      return CollectError(g);
    }
  }

  lemma NoVisits(visits: seq<Visit>)
    ensures !StopsAt(visits, 0) && Streak(visits, 0) == 0 && Failed(visits, 0) == []
    ensures visits == [] ==> Gather(visits) == Returned([], false) && FailuresRun(visits) == 0
  {}

  // What one more collector adds, when none of those before it stopped the run.
  lemma NextVisit(visits: seq<Visit>, i: nat)
    requires i < |visits| && i <= Ran(visits, 0) && !StopsAt(visits, i) && Streak(visits, i) < STOP_AFTER_ERRORS
    ensures var visit := visits[i]; var streak := Streak(visits, i + 1); var failed := Failed(visits, i + 1);
            var stops := visit.result == Panic || visit.cancelled || streak == STOP_AFTER_ERRORS;
            && streak == (if visit.result == Bad then Streak(visits, i) + 1 else 0)
            && failed == (if visit.result == Bad then Failed(visits, i) + [i] else Failed(visits, i))
            && i + 1 <= Ran(visits, 0)
            && (StopsAt(visits, i + 1) <==> stops)
            && (stops || i + 1 == |visits| ==>
                  && FailuresRun(visits) == |failed|
                  && Gather(visits) ==
                     if visit.result == Panic then Panicked else Returned(failed, streak == STOP_AFTER_ERRORS))
  {
    hide FiveFailures, Ran;
    StreakOfFive(visits, i + 1);
    RanStep(visits, i);
    if i + 1 == |visits| {
      assert Ran(visits, 0) == i + 1;
    }
  }

  lemma RanStep(visits: seq<Visit>, i: nat)
    requires i < |visits| && i <= Ran(visits, 0) && !StopsAt(visits, i)
    ensures i + 1 <= Ran(visits, 0)
    ensures StopsAt(visits, i + 1) ==> Ran(visits, 0) == i + 1
  {
    var n := Ran(visits, 0);
    assert n < |visits| ==> StopsAt(visits, n);
  }
}

/** What holds over every run of scrapes of one device, none overlapping another. */
module DeviceRuns {
  import opened Bytes
  import opened CircuitBreaker
  import opened DeviceCollector

  function Run(d: Device, scripts: seq<Script>): (r: Device)
    requires forall i :: 0 <= i < |scripts| ==> |scripts[i].visits| == d.collectors
    ensures r.collectors == d.collectors && r.isSrv == d.isSrv
  {
    if scripts == [] then d else
      var last := |scripts| - 1;
      Scrape(Run(d, scripts[..last]), scripts[last]).0
  }

  // The connections dialled and not closed.
  function Open(log: seq<Event>): set<Conn> {
    if log == [] then {} else
      var before := Open(log[..|log| - 1]);
      match log[|log| - 1]
      case Dialed(c) => before + {c}
      case Closed(c) => before - {c}
  }

  function Cached(d: Device): set<Conn> {
    if d.cl.Some? then {d.cl.value} else {}
  }

  // The identity lookup of a service-defined device fails: its connection is dropped without being closed.
  predicate Drops(d: Device, s: Script) {
    d.isSrv && !(d.cl.Some? && s.alive) && s.dials && s.logsIn && !s.identifies
  }

  // The connections that the first scrapes of a run dropped.
  function Dropped(d: Device, scripts: seq<Script>): set<Conn>
    requires forall i :: 0 <= i < |scripts| ==> |scripts[i].visits| == d.collectors
  {
    if scripts == [] then {} else
      var last := |scripts| - 1;
      var before := Run(d, scripts[..last]);
      Dropped(d, scripts[..last]) + if Drops(before, scripts[last]) then {before.next} else {}
  }

  // Apart from dropped connections, the cached one is open and no other.
  ghost predicate Sound(d: Device, dropped: set<Conn>) {
    && Open(d.log) == dropped + Cached(d)
    && dropped !! Cached(d)
    && forall c :: c in Open(d.log) ==> c < d.next
  }

  // At every moment from the given one on, at most one connection is open apart from dropped ones.
  ghost predicate OneOpenSince(log: seq<Event>, from: nat, dropped: set<Conn>) {
    forall n :: from <= n <= |log| ==> AtMostOne(Open(log[..n]) - dropped)
  }

  ghost predicate AtMostOne(open: set<Conn>) {
    forall a, b :: a in open && b in open ==> a == b
  }

  lemma OpenSnoc(log: seq<Event>, e: Event)
    ensures Open(log + [e]) == if e.Dialed? then Open(log) + {e.conn} else Open(log) - {e.conn}
  {
    assert (log + [e])[..|log|] == log;
  }

  lemma OneOpenSnoc(log: seq<Event>, e: Event, from: nat, dropped: set<Conn>)
    requires from <= |log| && OneOpenSince(log, from, dropped) && AtMostOne(Open(log + [e]) - dropped)
    ensures OneOpenSince(log + [e], from, dropped)
  {
    var all := log + [e];
    forall n | from <= n <= |all| ensures AtMostOne(Open(all[..n]) - dropped) {
      if n <= |log| {
        assert all[..n] == log[..n];
      } else {
        assert all[..n] == all;
      }
    }
  }

  lemma ScrapeEnds(d: Device, s: Script)
    requires |s.visits| == d.collectors
    ensures var d' := Scrape(d, s).0; var c := Connected(d, s).0;
            && d'.log == Disconnected(c).log && d'.cl == Disconnected(c).cl && d'.next == c.next
            && d'.isSrv == d.isSrv && d'.collectors == d.collectors
    ensures Connected(d, s).1.None? ==> Disconnected(Connected(d, s).0) == Connected(d, s).0
  {}

  // Closing the cached connection, if there is one, keeps the account.
  lemma CloseKeeps(d: Device, dropped: set<Conn>, from: nat)
    requires Sound(d, dropped) && from <= |d.log| && OneOpenSince(d.log, from, dropped) && d.cl.Some?
    ensures var d' := d.(cl := None, log := d.log + [Closed(d.cl.value)]);
            Sound(d', dropped) && OneOpenSince(d'.log, from, dropped)
  {
    OpenSnoc(d.log, Closed(d.cl.value));
    OneOpenSnoc(d.log, Closed(d.cl.value), from, dropped);
  }

  lemma DialKeeps(d: Device, dropped: set<Conn>, from: nat)
    requires Sound(d, dropped) && from <= |d.log| && OneOpenSince(d.log, from, dropped) && d.cl.None?
    ensures var d' := d.(cl := Some(d.next), log := d.log + [Dialed(d.next)], next := d.next + 1);
            Sound(d', dropped) && OneOpenSince(d'.log, from, dropped)
  {
    OpenSnoc(d.log, Dialed(d.next));
    OneOpenSnoc(d.log, Dialed(d.next), from, dropped);
  }

  // Forgetting the connection just dialled drops it.
  lemma DropKeeps(d: Device, dropped: set<Conn>, from: nat)
    requires Sound(d, dropped) && from <= |d.log| && OneOpenSince(d.log, from, dropped) && d.cl.Some?
    ensures var d' := d.(cl := None); var more := dropped + {d.cl.value};
            Sound(d', more) && OneOpenSince(d'.log, from, more)
  {
    forall n | from <= n <= |d.log| ensures AtMostOne(Open(d.log[..n]) - (dropped + {d.cl.value})) {
      FewerOpen(Open(d.log[..n]), dropped, dropped + {d.cl.value});
    }
  }

  lemma FewerOpen(open: set<Conn>, dropped: set<Conn>, more: set<Conn>)
    requires AtMostOne(open - dropped) && dropped <= more
    ensures AtMostOne(open - more)
  {
    forall a, b | a in open - more && b in open - more ensures a == b {
      assert a in open - dropped && b in open - dropped;
    }
  }

  lemma StartsOne(d: Device, dropped: set<Conn>)
    requires Sound(d, dropped)
    ensures OneOpenSince(d.log, |d.log|, dropped)
  {
    assert d.log[..|d.log|] == d.log;
  }

  lemma ConnectedKeeps(d: Device, s: Script, dropped: set<Conn>)
    requires Sound(d, dropped) && (d.isSrv ==> d.cl.None?)
    ensures var d' := Connected(d, s).0;
            var all := dropped + if Drops(d, s) then {d.next} else {};
            |d.log| <= |d'.log| && Sound(d', all) && OneOpenSince(d'.log, |d.log|, all)
  {
    hide Sound, OneOpenSince;
    var from := |d.log|;
    StartsOne(d, dropped);
    if !(d.cl.Some? && s.alive) {
      var d1 := d;
      if d.cl.Some? {
        CloseKeeps(d, dropped, from);
        d1 := d.(cl := None, log := d.log + [Closed(d.cl.value)]);
      }
      if s.dials {
        DialKeeps(d1, dropped, from);
        var d2 := d1.(cl := Some(d1.next), log := d1.log + [Dialed(d1.next)], next := d1.next + 1);
        if !s.logsIn {
          CloseKeeps(d2, dropped, from);
        } else if d.isSrv && !s.identifies {
          DropKeeps(d2, dropped, from);
        }
      }
    }
    assert dropped + {} == dropped;
  }

  /**
   One scrape: the account of open connections is kept, with a dropped connection added exactly when an identity
   lookup failed, and at every moment on the way at most one connection besides the dropped ones is open.
   */
  lemma ScrapeKeeps(d: Device, s: Script, dropped: set<Conn>)
    requires |s.visits| == d.collectors && Sound(d, dropped) && (d.isSrv ==> d.cl.None?)
    ensures var d' := Scrape(d, s).0;
            var all := dropped + if Drops(d, s) then {d.next} else {};
            && d.log <= d'.log && Sound(d', all) && OneOpenSince(d'.log, |d.log|, all)
            && (d'.isSrv ==> d'.cl.None?)
  {
    hide Sound, OneOpenSince;
    ScrapeEnds(d, s);
    ConnectedKeeps(d, s, dropped);
    var c := Connected(d, s).0;
    var all := dropped + if Drops(d, s) then {d.next} else {};
    if d.isSrv && c.cl.Some? {
      CloseKeeps(c, all, |d.log|);
    }
    var e := Disconnected(c);
    SoundParts(e, Scrape(d, s).0, all);
  }

  lemma SoundParts(a: Device, b: Device, dropped: set<Conn>)
    requires Sound(a, dropped) && a.log == b.log && a.cl == b.cl && a.next == b.next
    ensures Sound(b, dropped)
  {}

  lemma {:induction false} RunKeeps(isSrv: bool, collectors: nat, scripts: seq<Script>)
    requires forall i :: 0 <= i < |scripts| ==> |scripts[i].visits| == collectors
    ensures var d0 := New(isSrv, collectors); var d := Run(d0, scripts);
            && d.isSrv == isSrv && d.collectors == collectors && (isSrv ==> d.cl.None?)
            && Sound(d, Dropped(d0, scripts)) && OneOpenSince(d.log, 0, Dropped(d0, scripts))
            && (!isSrv ==> Dropped(d0, scripts) == {})
  {
    hide Sound, Scrape, Drops;
    var d0 := New(isSrv, collectors);
    if scripts == [] {
      NewSound(isSrv, collectors);
    } else {
      var last := |scripts| - 1;
      RunKeeps(isSrv, collectors, scripts[..last]);
      var before := Run(d0, scripts[..last]);
      ScrapeKeeps(before, scripts[last], Dropped(d0, scripts[..last]));
      StaticDropsNothing(before, scripts[last]);
      OneOpenJoin(before.log, Run(d0, scripts).log, Dropped(d0, scripts[..last]), Dropped(d0, scripts));
    }
  }

  lemma NewSound(isSrv: bool, collectors: nat)
    ensures var d := New(isSrv, collectors); Sound(d, {}) && OneOpenSince(d.log, 0, {})
  {}

  lemma StaticDropsNothing(d: Device, s: Script)
    ensures !d.isSrv ==> !Drops(d, s)
  {}

  lemma OneOpenJoin(log: seq<Event>, longer: seq<Event>, dropped: set<Conn>, more: set<Conn>)
    requires log <= longer && dropped <= more
    requires OneOpenSince(log, 0, dropped) && OneOpenSince(longer, |log|, more)
    ensures OneOpenSince(longer, 0, more)
  {
    forall n | 0 <= n <= |longer| ensures AtMostOne(Open(longer[..n]) - more) {
      if n <= |log| {
        assert longer[..n] == log[..n];
        FewerOpen(Open(log[..n]), dropped, more);
      }
    }
  }

  /**
   A device with a fixed address, over every run of scrapes: at any moment at most one of its connections is open,
   and between scrapes it is the cached one; every replaced connection and every one whose login failed was closed.
   */
  lemma StaticDevice(collectors: nat, scripts: seq<Script>, n: nat)
    requires forall i :: 0 <= i < |scripts| ==> |scripts[i].visits| == collectors
    requires n <= |Run(New(false, collectors), scripts).log|
    ensures var d := Run(New(false, collectors), scripts);
            Open(d.log) == Cached(d) && |Open(d.log[..n])| <= 1
  {
    RunKeeps(false, collectors, scripts);
    var d := Run(New(false, collectors), scripts);
    assert {} + Cached(d) == Cached(d);
    var open := Open(d.log[..n]);
    assert open - {} == open;
    assert AtMostOne(open - {});
    SmallSet(open);
  }

  lemma SmallSet(s: set<Conn>)
    requires AtMostOne(s)
    ensures |s| <= 1
  {
    if a :| a in s {
      assert s == {a};
    }
  }

  /**
   A service-defined device never keeps a connection after a scrape; the ones still open are exactly those whose
   identity lookup failed.
   */
  lemma ServiceDevice(collectors: nat, scripts: seq<Script>)
    requires forall i :: 0 <= i < |scripts| ==> |scripts[i].visits| == collectors
    ensures var d := Run(New(true, collectors), scripts);
            d.cl.None? && Open(d.log) == Dropped(New(true, collectors), scripts)
  {
    RunKeeps(true, collectors, scripts);
  }

  // A scrape in which a dialled and logged-in connection fails the identity lookup.
  predicate LosesConnection(s: Script) {
    s.dials && s.logsIn && !s.identifies
  }

  /** A service-defined device has every connection closed after a run exactly when no scrape fails its lookup. */
  lemma {:induction false} NothingLeftOpen(collectors: nat, scripts: seq<Script>)
    requires forall i :: 0 <= i < |scripts| ==> |scripts[i].visits| == collectors
    ensures Open(Run(New(true, collectors), scripts).log) == {} <==>
            forall i :: 0 <= i < |scripts| ==> !LosesConnection(scripts[i])
  {
    hide Scrape, Open, LosesConnection;
    ServiceDevice(collectors, scripts);
    if scripts != [] {
      var last := |scripts| - 1;
      var before := scripts[..last];
      NothingLeftOpen(collectors, before);
      RunKeeps(true, collectors, before);
      ServiceDevice(collectors, before);
      LostIfDropped(Run(New(true, collectors), before), scripts[last]);
    }
  }

  lemma LostIfDropped(d: Device, s: Script)
    requires d.isSrv && d.cl.None?
    ensures Drops(d, s) <==> LosesConnection(s)
  {}

  /** One scrape with a failed identity lookup: the connection is neither closed nor cached. */
  lemma LostConnection()
    ensures var scripts := [Script(false, true, true, false, Version(None, Fine), [])];
            var d := Run(New(true, 0), scripts);
            d.cl.None? && Open(d.log) == {0}
  {
    var scripts := [Script(false, true, true, false, Version(None, Fine), [])];
    var d0 := New(true, 0);
    assert scripts[..0] == [] && Run(d0, []) == d0;
    var d := Scrape(d0, scripts[0]).0;
    assert d.log == [Dialed(0)] && d.log[..0] == [];
  }

  /** The connection a scrape works with is open, whatever happened in the scrapes before. */
  lemma WorksOnOpenConnection(isSrv: bool, collectors: nat, scripts: seq<Script>, s: Script)
    requires forall i :: 0 <= i < |scripts| ==> |scripts[i].visits| == collectors
    ensures var (c, client) := Connected(Run(New(isSrv, collectors), scripts), s);
            client.Some? ==> c.cl == client && client.value in Open(c.log)
  {
    RunKeeps(isSrv, collectors, scripts);
    var d := Run(New(isSrv, collectors), scripts);
    ConnectedKeeps(d, s, Dropped(New(isSrv, collectors), scripts));
  }

  // What one scrape does, from the device and the script alone

  // The cached connection still answers.
  predicate Reuses(d: Device, s: Script) {
    d.cl.Some? && s.alive
  }

  predicate HasConnection(d: Device, s: Script) {
    Reuses(d, s) || (s.dials && s.logsIn && (d.isSrv ==> s.identifies))
  }

  // The version has to be asked for.
  predicate Asks(d: Device, s: Script) {
    HasConnection(d, s) && d.major == 0
  }

  function ConnectEvents(d: Device, s: Script): seq<Event> {
    if Reuses(d, s) then [] else
      (if d.cl.Some? then [Closed(d.cl.value)] else []) +
      (if s.dials then [Dialed(d.next)] else []) +
      (if s.dials && !s.logsIn then [Closed(d.next)] else [])
  }

  /**
   There is a connection exactly if the cached one answers, which is then used as it is, or a new one could be dialled,
   logged in and, for a service, identified. The events are those of replacing, dialling and a failed login.
   */
  lemma ConnectMeans(d: Device, s: Script)
    ensures var (c, client) := Connected(d, s);
            && client == c.cl
            && c.cl == (if Reuses(d, s) then d.cl else if HasConnection(d, s) then Some(d.next) else None)
            && (c.cl.Some? <==> HasConnection(d, s))
            && c.log == d.log + ConnectEvents(d, s)
            && c.next == d.next + (if !Reuses(d, s) && s.dials then 1 else 0)
            && c.major == d.major && c.errors == d.errors && (Reuses(d, s) ==> c == d)
  {}

  /**
   The device after a scrape. Its connection stays cached unless it belongs to a service, whose connection is closed;
   its version is forgotten without a connection and learnt when it was not known.
   */
  lemma ScrapeMeans(d: Device, s: Script)
    requires |s.visits| == d.collectors
    ensures var d' := Scrape(d, s).0;
            && d'.cl == (if !HasConnection(d, s) || d.isSrv then None else if Reuses(d, s) then d.cl else Some(d.next))
            && d'.log == d.log + ConnectEvents(d, s) +
                         (if HasConnection(d, s) && d.isSrv
                          then [Closed(if Reuses(d, s) then d.cl.value else d.next)] else [])
            && d'.major == (if !HasConnection(d, s) then 0
                            else if d.major == 0 && s.version.major.Some? then s.version.major.value else d.major)
  {
    hide Gather, FailuresRun;
    ConnectMeans(d, s);
  }

  /** How a scrape ends. */
  lemma ScrapeResult(d: Device, s: Script)
    requires |s.visits| == d.collectors
    ensures var r := Scrape(d, s).1; var works := HasConnection(d, s) && (Asks(d, s) ==> s.version.ending == Fine);
            && (r == ConnectError <==> !HasConnection(d, s))
            && (r == VersionError <==> Asks(d, s) && s.version.ending == Error)
            && (r == Recovered <==>
                  || (Asks(d, s) && s.version.ending == Panics)
                  || (works && exists i :: 0 <= i < Ran(s.visits, 0) && s.visits[i].result == Panic))
            && (r.CollectError? ==> works && r.gathered == Gather(s.visits) && r.gathered.Returned?)
  {
    hide Gather, FailuresRun;
    ConnectMeans(d, s);
    GatherMeaning(s.visits);
  }

  /**
   A scrape succeeds exactly when it has a connection and, where the version is not known yet, gets the version, and
   none of the collectors that run fails or panics.
   */
  lemma ScrapeSucceeds(d: Device, s: Script)
    requires |s.visits| == d.collectors
    ensures Scrape(d, s).1 == Succeeded <==>
            && HasConnection(d, s) && (d.major == 0 ==> s.version.ending == Fine)
            && forall i :: 0 <= i < Ran(s.visits, 0) ==> s.visits[i].result == Good
  {
    hide Gather, FailuresRun;
    ConnectMeans(d, s);
    GatherMeaning(s.visits);
  }

  // Errors

  // How much one scrape adds to the error counter: every collector without a connection or version, else the failures.
  function Added(d: Device, s: Script): nat
    requires |s.visits| == d.collectors
  {
    if !HasConnection(d, s) || (d.major == 0 && s.version.ending == Error) then d.collectors
    else if d.major == 0 && s.version.ending == Panics then 0
    else FailuresRun(s.visits)
  }

  lemma ScrapeErrors(d: Device, s: Script)
    requires |s.visits| == d.collectors
    ensures Scrape(d, s).0.errors == d.errors + Added(d, s) && Added(d, s) <= d.collectors
    ensures Scrape(d, s).0.collectors == d.collectors
  {
    hide Gather, FailuresRun;
    ConnectMeans(d, s);
    GatherMeaning(s.visits);
  }

  // The collectors among the first n that failed.
  function FailedSet(visits: seq<Visit>, n: nat): set<nat>
    requires n <= |visits|
  {
    set i: nat | i < n && visits[i].result == Bad
  }

  /** The counted failures are as many as the collectors that ran and failed. */
  lemma FailuresCounted(visits: seq<Visit>)
    ensures FailuresRun(visits) == |FailedSet(visits, Ran(visits, 0))|
  {
    FailedCount(visits, Ran(visits, 0));
  }

  lemma {:induction false} FailedCount(visits: seq<Visit>, n: nat)
    requires n <= |visits|
    ensures |Failed(visits, n)| == |FailedSet(visits, n)|
  {
    if n > 0 {
      FailedCount(visits, n - 1);
      FailedSetGrows(visits, n);
    }
  }

  lemma FailedSetGrows(visits: seq<Visit>, n: nat)
    requires 0 < n <= |visits|
    ensures FailedSet(visits, n) == FailedSet(visits, n - 1) + if visits[n - 1].result == Bad then {n - 1} else {}
    ensures n - 1 !in FailedSet(visits, n - 1)
  {}

  /** The error counter never falls, and a run adds at most one error per scrape and collector. */
  lemma {:induction false} ErrorsBounded(d: Device, scripts: seq<Script>)
    requires forall i :: 0 <= i < |scripts| ==> |scripts[i].visits| == d.collectors
    ensures d.errors <= Run(d, scripts).errors <= d.errors + |scripts| * d.collectors
  {
    hide Scrape, Added;
    if scripts != [] {
      var last := |scripts| - 1;
      ErrorsBounded(d, scripts[..last]);
      ScrapeErrors(Run(d, scripts[..last]), scripts[last]);
      Multiple(last, d.collectors);
    }
  }

  // What every scrape of a run adds, in the state in which it finds the device.
  function AddedOver(d: Device, scripts: seq<Script>): nat
    requires forall i :: 0 <= i < |scripts| ==> |scripts[i].visits| == d.collectors
  {
    if scripts == [] then 0 else
      var last := |scripts| - 1;
      AddedOver(d, scripts[..last]) + Added(Run(d, scripts[..last]), scripts[last])
  }

  /** A new device has no errors, and its counter is the sum of what the scrapes added. */
  lemma {:induction false} ErrorsCounted(isSrv: bool, collectors: nat, scripts: seq<Script>)
    requires forall i :: 0 <= i < |scripts| ==> |scripts[i].visits| == collectors
    ensures var d := New(isSrv, collectors); Run(d, scripts).errors == AddedOver(d, scripts) <= |scripts| * collectors
  {
    hide Scrape, Added;
    var d := New(isSrv, collectors);
    ErrorsBounded(d, scripts);
    if scripts != [] {
      var last := |scripts| - 1;
      ErrorsCounted(isSrv, collectors, scripts[..last]);
      ScrapeErrors(Run(d, scripts[..last]), scripts[last]);
    }
  }

  /** The first scrape of a device finds no connection and no version: it dials, and asks for the version. */
  lemma FirstScrape(isSrv: bool, collectors: nat, s: Script)
    ensures var d := New(isSrv, collectors);
            && !Reuses(d, s) && d.log == [] && d.isSrv == isSrv && d.collectors == collectors
            && (Asks(d, s) <==> s.dials && s.logsIn && (isSrv ==> s.identifies))
  {}

  lemma Multiple(n: nat, k: nat)
    ensures (n + 1) * k == n * k + k
  {}
}

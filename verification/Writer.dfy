/**
 The writer of a connection. A buffered sink may hand any part of what is pending to the connection at any
 time, a hand-over may fail after some bytes, and the first failure is latched for good.
 */
module Writer {
  import opened Bytes
  import opened LengthCode
  import opened Words

  // What the connection has taken, what is still buffered, the latched error, and the errors the connection reported.
  datatype Wire = Wire(sent: seq<byte>, pending: seq<byte>, err: Option<IoError>, reports: seq<IoError>)

  // The error is latched exactly when the connection reports one, and it is that one.
  predicate ReportedBy(before: Wire, after: Wire) {
    after.reports == before.reports + if after.err.Some? then [after.err.value] else []
  }

  // The outcomes of writing b: nothing after an error; else accepted, or failed with part of it handed over.
  ghost predicate Wrote(before: Wire, b: seq<byte>, after: Wire) {
    if before.err.Some? then after == before
    else
      && before.sent <= after.sent && ReportedBy(before, after)
      && (after.err.None? ==> after.sent + after.pending == before.sent + before.pending + b)
      && (after.err.Some? ==> after.sent <= before.sent + before.pending + b)
  }

  // The outcomes of a flush: a success hands over everything.
  ghost predicate Flushed(before: Wire, after: Wire) {
    if before.err.Some? then after == before
    else
      && before.sent <= after.sent && ReportedBy(before, after)
      && (after.err.None? ==> after.sent == before.sent + before.pending && after.pending == [])
      && (after.err.Some? ==> after.sent <= before.sent + before.pending)
  }

  // Two writes in a row are a write of both pieces.
  lemma WroteBoth(a: Wire, x: seq<byte>, b: Wire, y: seq<byte>, c: Wire)
    requires Wrote(a, x, b) && Wrote(b, y, c)
    ensures Wrote(a, x + y, c)
  {
    if a.err.None? && b.err.None? {
      assert b.sent + b.pending + y == a.sent + a.pending + (x + y);
    }
    assert a.sent + a.pending + x <= a.sent + a.pending + (x + y) by {
      assert a.sent + a.pending + (x + y) == a.sent + a.pending + x + y;
    }
  }

  class Writer {
    var sent: seq<byte>
    var pending: seq<byte>
    var err: Option<IoError>
    var reports: seq<IoError>
    var locked: bool

    constructor ()
      ensures State() == Wire([], [], None, []) && !locked
    {
      sent, pending, err, reports, locked := [], [], None, [], false;
    }

    function State(): Wire
      reads this
    {
      Wire(sent, pending, err, reports)
    }

    // One call of the connection: it takes the first n pending bytes, all of them unless it reports an error.
    method HandOver(want: nat) returns (failure: Option<IoError>)
      requires want <= |pending|
      modifies this`sent, this`pending, this`reports
      ensures old(sent) <= sent && sent + pending == old(sent + pending)
      ensures reports == old(reports) + if failure.Some? then [failure.value] else []
      ensures failure.None? ==> |pending| == |old(pending)| - want
    {
      var n := want;
      failure := None;
      if * {
        var reported: IoError := *;
        n :| 0 <= n <= want;
        failure := Some(reported);
        reports := reports + [reported];
      }
      sent, pending := sent + pending[..n], pending[n..];
    }

    method Write(b: seq<byte>)
      modifies this`sent, this`pending, this`err, this`reports
      ensures Wrote(old(State()), b, State())
    {
      if err.Some? {
        return;
      }
      pending := pending + b;
      assert sent + pending == old(sent + pending) + b;
      if * {
        var want: nat :| want <= |pending|;
        err := HandOver(want);
      }
    }

    method Flush()
      modifies this`sent, this`pending, this`err, this`reports
      ensures Flushed(old(State()), State())
    {
      if err.Some? {
        return;
      }
      err := HandOver(|pending|);
    }

    method BeginSentence()
      requires !locked
      modifies this`locked
      ensures locked
    {
      locked := true;
    }

    method WriteWord(w: word)
      requires locked
      modifies this`sent, this`pending, this`err, this`reports
      ensures Wrote(old(State()), EncodeWord(w), State())
    {
      Write(EncodeLength(|w|));
      label coded:
      Write(w);
      WroteBoth(old(State()), EncodeLength(|w|), old@coded(State()), w, State());
    }

    /**
     Ends the sentence, releases the lock and reports the latched error. Success means that every byte written so
     far is with the connection; an error that was there before is reported again and nothing more is sent.
     */
    method EndSentence() returns (e: Option<IoError>)
      requires locked
      modifies this
      ensures !locked && e == err
      ensures e.None? ==> pending == [] && sent == old(sent + pending) + EncodeWord([])
      ensures e.Some? ==> old(sent) <= sent <= old(sent + pending) + EncodeWord([])
      ensures old(err).None? ==> reports == old(reports) + if e.Some? then [e.value] else []
      ensures old(err).Some? ==> State() == old(State())
    {
      WriteWord([]);
      Flush();
      e := err;
      locked := false;
    }
  }
}

/**
 Concurrent commands on one writer, interleaved at every single write. A thread takes the writer's lock, writes
 the length and the payload of word after word, flushes, and releases the lock as it returns the latched error.
 Nothing but the lock keeps the writes of two threads apart.
 */
module WriterProtocol {
  import opened Bytes
  import opened LengthCode
  import opened Words
  import opened Sentences
  import opened SentenceStreams
  import opened Writer

  type Tid = nat

  // What a thread inside a command still has to do.
  datatype Op = WriteOp(bytes: seq<byte>) | FlushOp | ReturnOp

  function WordOps(w: word): seq<Op> {
    [WriteOp(EncodeLength(|w|)), WriteOp(w)]
  }

  function Script(ws: seq<word>): seq<Op> {
    if ws == [] then WordOps([]) + [FlushOp, ReturnOp] else WordOps(ws[0]) + Script(ws[1..])
  }

  /**
   `order` lists the commands in the order in which they took the lock; `todo` is empty for a thread that is
   outside the writer, waiting or not.
   */
  datatype State = State(wire: Wire, holder: Option<Tid>, todo: map<Tid, seq<Op>>, order: seq<seq<word>>)

  datatype Step = Begin(tid: Tid, command: seq<word>) | Advance(tid: Tid)

  ghost predicate Init(s: State) {
    && s.wire == Wire([], [], None, [])
    && s.holder == None
    && s.order == []
    && forall t :: t in s.todo ==> s.todo[t] == []
  }

  // The lock is taken only when it is free; the other operations do not look at it.
  ghost predicate Next(s: State, step: Step, s': State) {
    var t := step.tid;
    t in s.todo &&
    match step
    case Begin(_, command) =>
      && s.todo[t] == []
      && s.holder == None
      && s' == s.(holder := Some(t), todo := s.todo[t := Script(command)], order := s.order + [command])
    case Advance(_) =>
      && s.todo[t] != []
      && s'.todo == s.todo[t := s.todo[t][1..]]
      && s'.order == s.order
      && match s.todo[t][0]
         case WriteOp(b) => Wrote(s.wire, b, s'.wire) && s'.holder == s.holder
         case FlushOp => Flushed(s.wire, s'.wire) && s'.holder == s.holder
         case ReturnOp => s'.wire == s.wire && s'.holder == None
  }

  predicate Returns(s: State, step: Step) {
    step.Advance? && step.tid in s.todo && s.todo[step.tid] != [] && s.todo[step.tid][0] == ReturnOp
  }

  // What the command reports as it returns: the error latched by then.
  function ReturnValue(s: State, step: Step): Option<IoError>
    requires Returns(s, step)
  {
    s.wire.err
  }

  // Every finite behaviour of the system.
  ghost predicate Behaviour(states: seq<State>, steps: seq<Step>) {
    && |states| == |steps| + 1
    && Init(states[0])
    && forall i :: 0 <= i < |steps| ==> Next(states[i], steps[i], states[i + 1])
  }

  // The invariant

  function Writes(ops: seq<Op>): seq<byte> {
    if ops == [] then [] else (if ops[0].WriteOp? then ops[0].bytes else []) + Writes(ops[1..])
  }

  // Writes, then a flush, then the return.
  predicate Orderly(ops: seq<Op>) {
    ops != [] &&
    match ops[0]
    case WriteOp(_) => ops[1..] != [ReturnOp] && Orderly(ops[1..])
    case FlushOp => ops[1..] == [ReturnOp]
    case ReturnOp => ops[1..] == []
  }

  // While no error occurred, sent, buffered and outstanding bytes make up the commands begun so far; the latched error
  // is the one report of the connection.
  ghost predicate Accounts(wire: Wire, ops: seq<Op>, target: seq<byte>) {
    && (wire.err.None? ==> wire.sent + wire.pending + Writes(ops) == target)
    && (wire.err.None? && (ops == [] || ops == [ReturnOp]) ==> wire.pending == [])
    && (wire.err.Some? ==> wire.sent <= target)
    && wire.reports == (if wire.err.Some? then [wire.err.value] else [])
  }

  ghost predicate Inv(s: State) {
    && (forall t :: t in s.todo ==> (s.todo[t] != [] <==> s.holder == Some(t)))
    && match s.holder
       case None => Accounts(s.wire, [], EncodeSentences(s.order))
       case Some(t) =>
         && t in s.todo && Orderly(s.todo[t]) && s.order != []
         && Accounts(s.wire, s.todo[t], EncodeSentences(s.order))
  }

  lemma {:induction false} ScriptWrites(ws: seq<word>)
    ensures Orderly(Script(ws)) && Writes(Script(ws)) == EncodeSentence(ws)
    ensures |Script(ws)| == 2 * |ws| + 4
  {
    hide EncodeLength;
    if ws == [] {
      WordOpsWrites([], [FlushOp, ReturnOp]);
      assert Writes([FlushOp, ReturnOp]) == [] by {
        assert [FlushOp, ReturnOp][1..] == [ReturnOp];
      }
      assert [FlushOp, ReturnOp][1..] == [ReturnOp];
    } else {
      ScriptWrites(ws[1..]);
      WordOpsWrites(ws[0], Script(ws[1..]));
    }
  }

  lemma WordOpsWrites(w: word, rest: seq<Op>)
    requires Orderly(rest) && rest != [ReturnOp]
    ensures Orderly(WordOps(w) + rest) && Writes(WordOps(w) + rest) == EncodeWord(w) + Writes(rest)
  {
    hide EncodeLength, Orderly, Writes;
    var code, payload := WriteOp(EncodeLength(|w|)), WriteOp(w);
    WriteInFront(payload, rest);
    assert [payload] + rest != [ReturnOp] by {
      assert ([payload] + rest)[0] == payload;
    }
    WriteInFront(code, [payload] + rest);
    assert WordOps(w) + rest == [code] + ([payload] + rest);
    Regroup(code.bytes, payload.bytes, Writes(rest));
  }

  lemma WriteInFront(op: Op, rest: seq<Op>)
    requires op.WriteOp? && Orderly(rest) && rest != [ReturnOp]
    ensures Orderly([op] + rest) && Writes([op] + rest) == op.bytes + Writes(rest)
  {
    assert ([op] + rest)[1..] == rest;
  }

  lemma EncodeSnoc(sens: seq<seq<word>>, ws: seq<word>)
    ensures EncodeSentences(sens + [ws]) == EncodeSentences(sens) + EncodeSentence(ws)
  {
    hide EncodeSentence;
    EncodeAppend(sens, [ws]);
    assert EncodeSentences([ws]) == EncodeSentence(ws) + EncodeSentences([]);
  }

  // One operation of the lock's holder keeps the account.
  lemma AdvanceAccounts(wire: Wire, ops: seq<Op>, wire': Wire, target: seq<byte>)
    requires Orderly(ops) && Accounts(wire, ops, target)
    requires match ops[0]
             case WriteOp(b) => Wrote(wire, b, wire')
             case FlushOp => Flushed(wire, wire')
             case ReturnOp => wire' == wire
    ensures Accounts(wire', ops[1..], target)
    ensures if ops[0] == ReturnOp then ops[1..] == [] else ops[1..] != [] && Orderly(ops[1..])
  {
    var b := if ops[0].WriteOp? then ops[0].bytes else [];
    var w := Writes(ops[1..]);
    assert Writes(ops) == b + w;
    hide Writes, Orderly;
    Regroup(wire.sent + wire.pending, b, w);
  }

  lemma Regroup(x: seq<byte>, b: seq<byte>, w: seq<byte>)
    ensures x + (b + w) == x + b + w && x + b <= x + (b + w) && x <= x + (b + w)
  {}

  lemma NextKeepsInv(s: State, step: Step, s': State)
    requires Inv(s) && Next(s, step, s')
    ensures Inv(s')
  {
    hide EncodeSentence, EncodeSentences, Script, Wrote, Flushed, Accounts, Orderly, Writes;
    var t := step.tid;
    match step {
      case Begin(_, command) =>
        ScriptWrites(command);
        EncodeSnoc(s.order, command);
        BeginAccounts(s.wire, EncodeSentences(s.order), Script(command));
      case Advance(_) =>
        AdvanceAccounts(s.wire, s.todo[t], s'.wire, EncodeSentences(s.order));
    }
  }

  lemma BeginAccounts(wire: Wire, target: seq<byte>, ops: seq<Op>)
    requires Accounts(wire, [], target) && Orderly(ops) && ops != [ReturnOp]
    ensures Accounts(wire, ops, target + Writes(ops))
  {
    if wire.err.None? {
      assert wire.sent + wire.pending == target;
    }
  }

  lemma {:induction false} InvAlways(states: seq<State>, steps: seq<Step>, i: nat)
    requires Behaviour(states, steps) && i < |states|
    ensures Inv(states[i])
  {
    if i > 0 {
      InvAlways(states, steps, i - 1);
      NextKeepsInv(states[i - 1], steps[i - 1], states[i]);
    }
  }

  // Safety

  /** At every moment the connection has taken a prefix of the commands in lock order, one after the other. */
  lemma SentIsPrefix(states: seq<State>, steps: seq<Step>, i: nat)
    requires Behaviour(states, steps) && i < |states|
    ensures states[i].wire.sent <= EncodeSentences(states[i].order)
  {
    hide EncodeSentences;
    InvAlways(states, steps, i);
    var s := states[i];
    if s.wire.err.None? {
      var ops := if s.holder.None? then [] else s.todo[s.holder.value];
      assert s.wire.sent + s.wire.pending + Writes(ops) == s.wire.sent + (s.wire.pending + Writes(ops));
    }
  }

  /** A command runs by itself: from taking the lock up to the present state every step was its thread's. */
  lemma {:induction false} HolderBegan(states: seq<State>, steps: seq<Step>, i: nat) returns (b: nat)
    requires Behaviour(states, steps) && i < |states| && states[i].holder.Some?
    ensures b < i && steps[b].Begin? && states[i].holder == Some(steps[b].tid)
    ensures states[i].order == states[b].order + [steps[b].command]
    ensures forall k :: b < k < i ==> steps[k] == Advance(steps[b].tid)
  {
    hide Wrote, Flushed, Script, Accounts, Orderly;
    assert Next(states[i - 1], steps[i - 1], states[i]);
    if steps[i - 1].Begin? {
      b := i - 1;
    } else {
      InvAlways(states, steps, i - 1);
      b := HolderBegan(states, steps, i - 1);
    }
  }

  /**
   When a command returns without an error, the connection has all of it and of every command before it. The command
   is the one its thread began at step b, and no other thread did anything in between.
   */
  lemma NilMeansSent(states: seq<State>, steps: seq<Step>, i: nat) returns (b: nat)
    requires Behaviour(states, steps) && i < |steps| && Returns(states[i], steps[i])
    ensures b < i && steps[b].Begin? && steps[b].tid == steps[i].tid
    ensures states[i].order == states[b].order + [steps[b].command]
    ensures forall k :: b < k < i ==> steps[k] == Advance(steps[i].tid)
    ensures ReturnValue(states[i], steps[i]).None? ==>
              states[i].wire.sent == EncodeSentences(states[b].order) + EncodeSentence(steps[b].command)
    ensures states[i + 1].holder == None
  {
    hide EncodeSentences, EncodeSentence;
    HolderAccounts(states, steps, i);
    b := HolderBegan(states, steps, i);
    EncodeSnoc(states[b].order, steps[b].command);
  }

  lemma HolderAccounts(states: seq<State>, steps: seq<Step>, i: nat)
    requires Behaviour(states, steps) && i < |steps| && Returns(states[i], steps[i])
    ensures ReturnValue(states[i], steps[i]).None? ==> states[i].wire.sent == EncodeSentences(states[i].order)
    ensures states[i].holder == Some(steps[i].tid) && states[i + 1].holder == None
  {
    hide EncodeSentences;
    InvAlways(states, steps, i);
    var ops := states[i].todo[steps[i].tid];
    assert ops[1..] == [] && ops == [ReturnOp] by {
      assert Orderly(ops);
    }
    assert Writes(ops) == [];
  }

  /** After the first error not one byte is added, and every command that returns returns that error. */
  lemma {:induction false} ErrorLatched(states: seq<State>, steps: seq<Step>, i: nat, j: nat)
    requires Behaviour(states, steps) && i <= j < |states| && states[i].wire.err.Some?
    ensures states[j].wire == states[i].wire
    ensures j < |steps| && Returns(states[j], steps[j]) ==> ReturnValue(states[j], steps[j]) == states[i].wire.err
  {
    if i < j {
      ErrorLatched(states, steps, i, j - 1);
      assert Next(states[j - 1], steps[j - 1], states[j]);
    }
  }

  /** An error is latched exactly if the connection reported one, and every return gives the first report. */
  lemma ErrorReported(states: seq<State>, steps: seq<Step>, i: nat)
    requires Behaviour(states, steps) && i < |states|
    ensures states[i].wire.err.Some? <==> states[i].wire.reports != []
    ensures i < |steps| && Returns(states[i], steps[i]) ==>
              ReturnValue(states[i], steps[i]) ==
              if states[i].wire.reports == [] then None else Some(states[i].wire.reports[0])
  {
    InvAlways(states, steps, i);
  }

  /** Bytes the connection has taken stay taken, and the lock order only grows. */
  lemma {:induction false} SentGrows(states: seq<State>, steps: seq<Step>, i: nat, j: nat)
    requires Behaviour(states, steps) && i <= j < |states|
    ensures states[i].wire.sent <= states[j].wire.sent && states[i].order <= states[j].order
  {
    if i < j {
      SentGrows(states, steps, i, j - 1);
      assert Next(states[j - 1], steps[j - 1], states[j]);
    }
  }

  /** At most one thread is inside a command. */
  lemma OneInside(states: seq<State>, steps: seq<Step>, i: nat, t: Tid, u: Tid)
    requires Behaviour(states, steps) && i < |states| && t in states[i].todo && u in states[i].todo
    requires states[i].todo[t] != [] && states[i].todo[u] != []
    ensures t == u
  {
    InvAlways(states, steps, i);
  }

  // The lock is released

  // While the lock is held every step is the holder's, and brings it one operation closer to the return.
  lemma HeldStep(s: State, step: Step, s': State)
    requires Inv(s) && Next(s, step, s') && s.holder.Some?
    ensures step == Advance(s.holder.value)
    ensures s'.holder == None || (s'.holder == s.holder && |s'.todo[s.holder.value]| == |s.todo[s.holder.value]| - 1)
  {}

  /**
   Whatever errors occur and whoever is scheduled, a held lock is free again after at most as many steps as its
   holder still has operations.
   */
  lemma {:induction false} LockReleased(states: seq<State>, steps: seq<Step>, i: nat) returns (j: nat)
    requires Behaviour(states, steps) && i < |states| && states[i].holder.Some?
    requires states[i].holder.value in states[i].todo
    requires i + |states[i].todo[states[i].holder.value]| < |states|
    ensures i < j <= i + |states[i].todo[states[i].holder.value]| && states[j].holder == None
    decreases |states| - i
  {
    InvAlways(states, steps, i);
    assert Next(states[i], steps[i], states[i + 1]);
    HeldStep(states[i], steps[i], states[i + 1]);
    j := i + 1;
    if states[j].holder.Some? {
      InvAlways(states, steps, j);
      j := LockReleased(states, steps, j);
    }
  }

  /** No reachable state is stuck: the holder can always go on, and with a free lock every thread can begin. */
  lemma NeverStuck(states: seq<State>, steps: seq<Step>, i: nat, t: Tid, command: seq<word>)
    returns (step: Step, s': State)
    requires Behaviour(states, steps) && i < |states| && t in states[i].todo
    ensures Next(states[i], step, s')
    ensures step == match states[i].holder case Some(h) => Advance(h) case None => Begin(t, command)
  {
    hide EncodeSentences, EncodeSentence, Accounts, Writes, Script;
    InvAlways(states, steps, i);
    var s := states[i];
    match s.holder {
      case None =>
        step := Begin(t, command);
        s' := s.(holder := Some(t), todo := s.todo[t := Script(command)], order := s.order + [command]);
      case Some(h) =>
        step := Advance(h);
        var w := s.wire;
        var ops := s.todo[h];
        s' := s.(todo := s.todo[h := ops[1..]]);
        if w.err.None? && ops[0].WriteOp? {
          s' := s'.(wire := w.(pending := w.pending + ops[0].bytes));
          assert w.sent + (w.pending + ops[0].bytes) == w.sent + w.pending + ops[0].bytes;
        } else if w.err.None? && ops[0].FlushOp? {
          s' := s'.(wire := w.(sent := w.sent + w.pending, pending := []));
        } else if ops[0].ReturnOp? {
          s' := s'.(holder := None);
        }
    }
  }
}

/** Theorems about whole runs and whole call trees. */
module Runs {
  import opened Words
  import opened Instructions
  import opened Hosts
  import opened Machine
  import opened Code
  import opened Interpreter
  import opened Optimizer
  import opened Execution

  // ---- Reachable states ----

  type Move = State -> Option<State>

  function Iterate(move: Move, st: State, n: nat): (r: Option<State>)
    decreases n
  {
    if n == 0 then Some(st)
    else match move(st)
      case Some(s) => Iterate(move, s, n - 1)
      case None => None
  }

  ghost predicate Lawful(move: Move, f: Frame, pooled: bool)
  {
    forall s: State :: move(s).Some? ==>
      Ready(f, pooled, move(s).value) && Metered(s, move(s).value) && move(s).value.gas < s.gas
  }

  lemma {:induction false} IterateLawful(move: Move, f: Frame, pooled: bool, st: State, n: nat)
    requires Lawful(move, f, pooled) && Ready(f, pooled, st)
    ensures var r := Iterate(move, st, n);
            r.Some? ==> Ready(f, pooled, r.value) && Metered(st, r.value) && r.value.gas + n <= st.gas
    decreases n
  {
    if n > 0 && move(st).Some? {
      var s := move(st).value;
      IterateLawful(move, f, pooled, s, n - 1);
      var r := Iterate(move, s, n - 1);
      if r.Some? { MeteredTrans(st, s, r.value); }
    }
  }

  /** One instruction of a frame, nested executions included, as long as it does not stop. */
  ghost function Instruction(h: Host, f: Frame, pooled: bool): (move: Move)
    requires Suitable(h, pooled)
  {
    (s: State) =>
      if !Ready(f, pooled, s) then None
      else
        var r := Advance(h, f, pooled, s);
        if r.Next? then Some(r.st) else None
  }

  /** The state after `n` instructions, if the frame has not stopped before. */
  ghost function After(h: Host, f: Frame, pooled: bool, st: State, n: nat): (r: Option<State>)
    requires Suitable(h, pooled)
  {
    Iterate(Instruction(h, f, pooled), st, n)
  }

  lemma MeteredTrans(a: State, b: State, c: State)
    requires Metered(a, b) && Metered(b, c)
    ensures Metered(a, c)
  {
  }

  lemma AdvanceMetered(h: Host, f: Frame, pooled: bool, st: State)
    requires Suitable(h, pooled) && Ready(f, pooled, st)
    ensures var r := Advance(h, f, pooled, st); r.Next? || r.Halt? ==> Metered(st, r.st)
  {
    ReadyFetchable(f, pooled, st);
    NextReady(h, f, pooled, st);
    var r := Step(h, f, Load(f.code, pooled), st);
    if r.CallOut? {
      var n := Nested(h, f.rev, pooled, st.trace, r.msg);
      ResumeReady(h, f, pooled, st, n.0, n.1);
    }
  }

  lemma InstructionLawful(h: Host, f: Frame, pooled: bool)
    requires Suitable(h, pooled)
    ensures Lawful(Instruction(h, f, pooled), f, pooled)
  {
    var move := Instruction(h, f, pooled);
    forall s: State | move(s).Some?
      ensures Ready(f, pooled, move(s).value) && Metered(s, move(s).value) && move(s).value.gas < s.gas
    {
      AdvanceMetered(h, f, pooled, s);
    }
  }

  /** At every reachable state of every run: the program counter is an instruction boundary or the
      padding right behind the code and all bytes the instruction reads lie within the 33 bytes of
      padding; the stack holds at most 1024 words; memory is whole words and the memory gas paid is
      exactly `gasForMem` of its size; gas in hand and gas paid add up to the gas of the message; and
      each instruction so far has cost at least one unit. */
  lemma ReachableStates(h: Host, rev: Revision, msg: Message, code: Bytes, pooled: bool, trace: Trace, n: nat, s: State)
    requires Suitable(h, pooled) && Runnable(code, pooled) && msg.gas <= INT63_MAX
    requires After(h, Frame(rev, msg, code), pooled, Initial(msg, trace), n) == Some(s)
    ensures Boundary(code, s.pc) && s.pc <= |code| + 32
    ensures s.pc + PushLength(Load(code, pooled).code[s.pc]) < |code| + PADDING
    ensures |s.stack| <= STACK_LIMIT
    ensures |s.mem| % 32 == 0 && s.memoryGas == GasForMem(|s.mem|) && Priced(|s.mem| / 32, s.memoryGas)
    ensures s.gas + s.memoryGas + s.fixedGas + s.callGas == msg.gas + s.stipends
    ensures s.stipends <= s.fixedGas + s.callGas
    ensures s.gas + n <= msg.gas
  {
    var f := Frame(rev, msg, code);
    InitialReady(rev, msg, code, pooled, trace);
    InstructionLawful(h, f, pooled);
    IterateLawful(Instruction(h, f, pooled), f, pooled, Initial(msg, trace), n);
    LoadedAs(code, pooled);
    TrackFetchable(code, Load(code, pooled), s);
    GasForMemExact(|s.mem| / 32);
  }

  /** The same account at the end of a run that returns or reverts. */
  lemma {:induction false} RunMetered(h: Host, f: Frame, pooled: bool, st: State)
    requires Suitable(h, pooled) && Ready(f, pooled, st)
    ensures var e := Run(h, f, pooled, st); e.Done? ==> Metered(st, e.st)
    decreases st.gas
  {
    AdvanceMetered(h, f, pooled, st);
    var r := Advance(h, f, pooled, st);
    if r.Next? {
      RunMetered(h, f, pooled, r.st);
      var e := Run(h, f, pooled, r.st);
      if e.Done? { MeteredTrans(st, r.st, e.st); }
    }
  }

  // ---- Static mode (EIP-214) ----

  lemma GrowsTrans(isStatic: bool, a: Trace, b: Trace, c: Trace)
    requires Grows(isStatic, a, b) && Grows(isStatic, b, c)
    ensures Grows(isStatic, a, c)
  {
    forall i | isStatic && |a| <= i < |c| ensures Harmless(c[i])
    {
      if i < |b| { assert c[i] == b[i]; }
    }
  }

  lemma GrowsByEvent(isStatic: bool, t: Trace, e: Event)
    requires isStatic ==> Harmless(e)
    ensures Grows(isStatic, t, t + [e])
  {
  }

  function EndTrace(e: End): (t: Trace)
  {
    if e.Done? then e.st.trace else e.trace
  }

  function ResultTrace(r: StepResult): (t: Trace)
  {
    if r.Fault? then r.trace else r.st.trace
  }

  lemma {:induction false} AdvanceStatic(h: Host, f: Frame, pooled: bool, st: State)
    requires Suitable(h, pooled) && Ready(f, pooled, st)
    ensures Grows(f.msg.isStatic, st.trace, ResultTrace(Advance(h, f, pooled, st)))
    decreases Levels(f.msg.depth), st.gas, 1
  {
    ReadyFetchable(f, pooled, st);
    NextReady(h, f, pooled, st);
    var r := Step(h, f, Load(f.code, pooled), st);
    if r.CallOut? {
      NestedStatic(h, f.rev, pooled, st.trace, r.msg, f.msg.isStatic);
      var n := Nested(h, f.rev, pooled, st.trace, r.msg);
      ResumeReady(h, f, pooled, st, n.0, n.1);
    }
  }

  /** Every event a run causes, at any depth of nesting, is appended to the history; below a static
      message every one of them is harmless: no storage write, no log, no self-destruct, no creation,
      no CALL with value, and every message sent is itself static. */
  lemma {:induction false} RunStatic(h: Host, f: Frame, pooled: bool, st: State)
    requires Suitable(h, pooled) && Ready(f, pooled, st)
    ensures Grows(f.msg.isStatic, st.trace, EndTrace(Run(h, f, pooled, st)))
    decreases Levels(f.msg.depth), st.gas, 2
  {
    AdvanceStatic(h, f, pooled, st);
    var r := Advance(h, f, pooled, st);
    if r.Next? {
      RunStatic(h, f, pooled, r.st);
      GrowsTrans(f.msg.isStatic, st.trace, r.st.trace, EndTrace(Run(h, f, pooled, r.st)));
    }
  }

  lemma {:induction false} NestedStatic(h: Host, rev: Revision, pooled: bool, trace: Trace, msg: Message, isStatic: bool)
    requires Suitable(h, pooled) && msg.gas <= INT63_MAX
    requires isStatic ==> Harmless(Send(msg))
    ensures Grows(isStatic, trace, Nested(h, rev, pooled, trace, msg).1)
    decreases Levels(msg.depth), msg.gas, 3
  {
    var sent := trace + [Send(msg)];
    GrowsByEvent(isStatic, trace, Send(msg));
    var d := h.dispatch(sent, msg);
    if d.Answer? {
      GrowsByEvent(isStatic, sent, Receive(d.result.status));
      GrowsTrans(isStatic, trace, sent, sent + [Receive(d.result.status)]);
    } else {
      var callee := CalleeMessage(msg, d.receiver);
      var f := Frame(rev, callee, d.code);
      InitialReady(rev, callee, d.code, pooled, sent);
      RunStatic(h, f, pooled, Initial(callee, sent));
      var e := Run(h, f, pooled, Initial(callee, sent));
      var t := EndTrace(e);
      assert Report(e).1 == t;
      assert Grows(isStatic, sent, t);
      var status := h.settle(t, msg, Report(e).0).status;
      GrowsTrans(isStatic, trace, sent, t);
      GrowsByEvent(isStatic, t, Receive(status));
      GrowsTrans(isStatic, trace, t, t + [Receive(status)]);
    }
  }

  // ---- A bound on the whole call tree ----

  function StepGas(r: StepResult): (g: nat)
  {
    if r.Fault? then 0 else r.st.gas
  }

  lemma {:induction false} AdvanceBound(h: Host, f: Frame, pooled: bool, st: State)
    requires Suitable(h, pooled) && Ready(f, pooled, st)
    ensures var r := Advance(h, f, pooled, st);
            |ResultTrace(r)| - |st.trace| <= st.gas - StepGas(r) + (if r.Next? then 0 else 1)
    decreases Levels(f.msg.depth), st.gas, 1
  {
    ReadyFetchable(f, pooled, st);
    NextReady(h, f, pooled, st);
    var r := Step(h, f, Load(f.code, pooled), st);
    if r.CallOut? {
      NestedBound(h, f.rev, pooled, st.trace, r.msg);
      var n := Nested(h, f.rev, pooled, st.trace, r.msg);
      ResumeReady(h, f, pooled, st, n.0, n.1);
    }
  }

  lemma {:induction false} RunBound(h: Host, f: Frame, pooled: bool, st: State)
    requires Suitable(h, pooled) && Ready(f, pooled, st)
    ensures var e := Run(h, f, pooled, st); |EndTrace(e)| - |st.trace| <= st.gas - GasLeft(e) + 1
    decreases Levels(f.msg.depth), st.gas, 2
  {
    AdvanceBound(h, f, pooled, st);
    var r := Advance(h, f, pooled, st);
    if r.Next? { RunBound(h, f, pooled, r.st); }
  }

  lemma {:induction false} NestedBound(h: Host, rev: Revision, pooled: bool, trace: Trace, msg: Message)
    requires Suitable(h, pooled) && msg.gas <= INT63_MAX
    ensures var n := Nested(h, rev, pooled, trace, msg); |n.1| - |trace| <= msg.gas - n.0.gasLeft + 3
    decreases Levels(msg.depth), msg.gas, 3
  {
    var sent := trace + [Send(msg)];
    var d := h.dispatch(sent, msg);
    if d.Enter? {
      var callee := CalleeMessage(msg, d.receiver);
      InitialReady(rev, callee, d.code, pooled, sent);
      RunBound(h, Frame(rev, callee, d.code), pooled, Initial(callee, sent));
      var e := Run(h, Frame(rev, callee, d.code), pooled, Initial(callee, sent));
      assert Report(e).1 == EndTrace(e);
      assert h.settle(EndTrace(e), msg, Report(e).0).gasLeft <= GasLeft(e);
    }
  }

  /** The whole tree of nested executions stops after a bounded number of host interactions: every
      message, answer, storage write, log and self-destruct in it, bar one, is paid with at least
      one unit of the gas of the outermost message. */
  lemma TreeBound(h: Host, rev: Revision, pooled: bool, trace: Trace, msg: Message, code: Bytes)
    requires Suitable(h, pooled) && Runnable(code, pooled) && msg.gas <= INT63_MAX
    ensures var r := Execute(h, rev, pooled, trace, msg, code);
            r.0.gasLeft <= msg.gas && |r.1| - |trace| <= msg.gas - r.0.gasLeft + 1
  {
    InitialReady(rev, msg, code, pooled, trace);
    RunBound(h, Frame(rev, msg, code), pooled, Initial(msg, trace));
    var e := Run(h, Frame(rev, msg, code), pooled, Initial(msg, trace));
    assert Report(e).1 == EndTrace(e);
  }

  // ---- The optimiser over whole call trees ----

  lemma ReadyBoth(f: Frame, st: State)
    requires Ready(f, true, st)
    ensures Ready(f, false, st)
  {
    LoadedAs(f.code, true);
    PreparedAtBoundary(f.code, st.pc);
  }

  lemma {:induction false} AdvanceAgrees(h: Host, f: Frame, st: State)
    requires Suitable(h, true) && Ready(f, true, st)
    ensures Ready(f, false, st) && Advance(h, f, true, st) == Advance(h, f, false, st)
    decreases Levels(f.msg.depth), st.gas, 1
  {
    ReadyBoth(f, st);
    LoadedAs(f.code, true);
    StepAgrees(h, f, Load(f.code, true), st);
    NextReady(h, f, true, st);
    var r := Step(h, f, Load(f.code, true), st);
    if r.CallOut? { NestedAgrees(h, f.rev, st.trace, r.msg); }
  }

  lemma {:induction false} RunAgrees(h: Host, f: Frame, st: State)
    requires Suitable(h, true) && Ready(f, true, st)
    ensures Ready(f, false, st) && Run(h, f, true, st) == Run(h, f, false, st)
    decreases Levels(f.msg.depth), st.gas, 2
  {
    AdvanceAgrees(h, f, st);
    var r := Advance(h, f, true, st);
    if r.Next? { RunAgrees(h, f, r.st); }
  }

  lemma {:induction false} NestedAgrees(h: Host, rev: Revision, trace: Trace, msg: Message)
    requires Suitable(h, true) && msg.gas <= INT63_MAX
    ensures Nested(h, rev, true, trace, msg) == Nested(h, rev, false, trace, msg)
    decreases Levels(msg.depth), msg.gas, 3
  {
    var sent := trace + [Send(msg)];
    var d := h.dispatch(sent, msg);
    if d.Enter? {
      var callee := CalleeMessage(msg, d.receiver);
      InitialReady(rev, callee, d.code, true, sent);
      RunAgrees(h, Frame(rev, callee, d.code), Initial(callee, sent));
    }
  }

  /** Executing a message with the constant pool and direct jumps gives the same status, gas,
      output and history of host interactions as executing the plain code, through every nested
      call, whenever the 16-bit pool offsets recover the constants of all codes that run. */
  lemma OptimizerPreservesExecution(h: Host, rev: Revision, trace: Trace, msg: Message, code: Bytes)
    requires Honest(h) && Compact(h) && Runnable(code, true) && msg.gas <= INT63_MAX
    ensures Execute(h, rev, true, trace, msg, code) == Execute(h, rev, false, trace, msg, code)
  {
    InitialReady(rev, msg, code, true, trace);
    RunAgrees(h, Frame(rev, msg, code), Initial(msg, trace));
  }

  /** In particular when all codes have at most 458752 bytes. */
  lemma ShortCodePreserved(h: Host, rev: Revision, trace: Trace, msg: Message, code: Bytes)
    requires Honest(h) && |code| <= CODE_LIMIT && msg.gas <= INT63_MAX
    requires forall t: Trace, m: Message :: h.dispatch(t, m).Enter? ==> |h.dispatch(t, m).code| <= CODE_LIMIT
    ensures Compact(h) && Runnable(code, true)
    ensures Execute(h, rev, true, trace, msg, code) == Execute(h, rev, false, trace, msg, code)
  {
    PoolFits(code);
    forall t: Trace, m: Message | h.dispatch(t, m).Enter? ensures Runnable(h.dispatch(t, m).code, true)
    {
      PoolFits(h.dispatch(t, m).code);
    }
    OptimizerPreservesExecution(h, rev, trace, msg, code);
  }
}

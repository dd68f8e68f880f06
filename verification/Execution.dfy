/** Whole runs: `VM::exec` in a frame, and the tree of nested executions below it. */
module Execution {
  import opened Words
  import opened Instructions
  import opened Hosts
  import opened Machine
  import opened Code
  import opened Interpreter
  import opened Optimizer

  /** How a frame ends. */
  datatype End = Done(reverted: bool, output: Bytes, st: State) | Thrown(error: Error, trace: Trace)

  /** With the constant pool in use, 16-bit pool offsets must suffice for every code that runs. */
  ghost predicate Compact(h: Host)
  {
    forall t: Trace, m: Message :: h.dispatch(t, m).Enter? ==> Runnable(h.dispatch(t, m).code, true)
  }

  ghost predicate Suitable(h: Host, pooled: bool)
  {
    Honest(h) && (pooled ==> Compact(h))
  }

  ghost predicate Runnable(code: Bytes, pooled: bool)
  {
    pooled ==> Recoverable(LongConstants(code, 0))
  }

  /** What holds in every state a run passes through. */
  ghost predicate Ready(f: Frame, pooled: bool, st: State)
  {
    && Runnable(f.code, pooled)
    && OnTrack(f.code, Load(f.code, pooled), st)
    && |st.stack| <= STACK_LIMIT
    && Accounted(st) <= INT63_MAX && Unlent(st) >= 0
    && |st.mem| % 32 == 0
    && st.memoryGas == GasForMem(|st.mem|)
  }

  function Initial(msg: Message, trace: Trace): (st: State)
  {
    State(0, [], [], msg.gas, [], trace, 0, 0, 0, 0)
  }

  lemma LoadedAs(code: Bytes, pooled: bool)
    requires Runnable(code, pooled)
    ensures Loaded(code, Load(code, pooled))
  {
    if pooled {
      OptimizedLoaded(code);
    } else {
      PlainLoaded(code);
    }
  }

  lemma InitialReady(rev: Revision, msg: Message, code: Bytes, pooled: bool, trace: Trace)
    requires Runnable(code, pooled) && msg.gas <= INT63_MAX
    ensures Ready(Frame(rev, msg, code), pooled, Initial(msg, trace))
  {
    LoadedAs(code, pooled);
  }

  lemma ReadyFetchable(f: Frame, pooled: bool, st: State)
    requires Ready(f, pooled, st)
    ensures Fetchable(Load(f.code, pooled), st.pc)
  {
    LoadedAs(f.code, pooled);
    TrackFetchable(f.code, Load(f.code, pooled), st);
  }

  lemma NextReady(h: Host, f: Frame, pooled: bool, st: State)
    requires Ready(f, pooled, st) && Fetchable(Load(f.code, pooled), st.pc)
    ensures var r := Step(h, f, Load(f.code, pooled), st);
            StepOk(f, st, r) && (r.Next? ==> Ready(f, pooled, r.st))
  {
    LoadedAs(f.code, pooled);
    StepAlwaysOk(h, f, Load(f.code, pooled), st);
    StepOnTrack(h, f, Load(f.code, pooled), st);
  }

  lemma ResumeReady(h: Host, f: Frame, pooled: bool, st: State, res: Result, trace: Trace)
    requires Ready(f, pooled, st) && Fetchable(Load(f.code, pooled), st.pc)
    requires var r := Step(h, f, Load(f.code, pooled), st); r.CallOut? && res.gasLeft <= r.msg.gas
    ensures var r := Step(h, f, Load(f.code, pooled), st);
      && StepOk(f, st, r)
      && var s := Resume(r.st, r.msg, r.slot, res, trace);
         Ready(f, pooled, s) && Metered(st, s) && s.gas < st.gas && s.trace == trace
  {
    LoadedAs(f.code, pooled);
    StepAlwaysOk(h, f, Load(f.code, pooled), st);
    StepOnTrack(h, f, Load(f.code, pooled), st);
    var r := Step(h, f, Load(f.code, pooled), st);
    var s := Resume(r.st, r.msg, r.slot, res, trace);
    LandNext(f.code, Load(f.code, pooled), st, s);
  }

  function GasLeft(e: End): (g: nat)
  {
    if e.Done? then e.st.gas else 0
  }

  /** The result structure made of a frame's end. */
  function Report(e: End): (r: (Result, Trace))
    ensures r.0.gasLeft == GasLeft(e)
  {
    match e
    case Done(reverted, output, st) =>
      (Result(if reverted then Reverted else Success, st.gas, output, 0), st.trace)
    case Thrown(error, t) => (Result(Failed(error), 0, [], 0), t)
  }

  // ---- The recursion ----

  function Levels(depth: nat): (n: nat)
  {
    if depth < DEPTH_LIMIT then DEPTH_LIMIT - depth else 0
  }

  /** One instruction, nested executions included.  Never yields `CallOut`. */
  function Advance(h: Host, f: Frame, pooled: bool, st: State): (r: StepResult)
    requires Suitable(h, pooled) && Ready(f, pooled, st)
    ensures r.Next? ==> Ready(f, pooled, r.st) && r.st.gas < st.gas
    ensures r.Halt? ==> r.st.gas <= st.gas
    ensures !r.CallOut?
    decreases Levels(f.msg.depth), st.gas, 1
  {
    ReadyFetchable(f, pooled, st);
    NextReady(h, f, pooled, st);
    var r := Step(h, f, Load(f.code, pooled), st);
    if r.CallOut? then
      var (res, trace) := Nested(h, f.rev, pooled, st.trace, r.msg);
      ResumeReady(h, f, pooled, st, res, trace);
      Next(Resume(r.st, r.msg, r.slot, res, trace))
    else r
  }

  /** `interpretCases` until the frame stops.  That this is a function at all is the termination
      of every run: gas falls at each step and depth bounds the nesting. */
  function Run(h: Host, f: Frame, pooled: bool, st: State): (e: End)
    requires Suitable(h, pooled) && Ready(f, pooled, st)
    ensures GasLeft(e) <= st.gas
    decreases Levels(f.msg.depth), st.gas, 2
  {
    match Advance(h, f, pooled, st)
    case Next(s) => Run(h, f, pooled, s)
    case Halt(reverted, output, s) => Done(reverted, output, s)
    case Fault(error, trace) => Thrown(error, trace)
  }

  /** `m_host->call`: the host answers or runs the callee's code in a new interpreter. */
  function Nested(h: Host, rev: Revision, pooled: bool, trace: Trace, msg: Message): (r: (Result, Trace))
    requires Suitable(h, pooled) && msg.gas <= INT63_MAX
    ensures r.0.gasLeft <= msg.gas
    decreases Levels(msg.depth), msg.gas, 3
  {
    var sent := trace + [Send(msg)];
    match h.dispatch(sent, msg)
    case Answer(res) => (res, sent + [Receive(res.status)])
    case Enter(code, receiver) =>
      var callee := CalleeMessage(msg, receiver);
      InitialReady(rev, callee, code, pooled, sent);
      var (inner, t) := Report(Run(h, Frame(rev, callee, code), pooled, Initial(callee, sent)));
      var res := h.settle(t, msg, inner);
      (res, t + [Receive(res.status)])
  }

  /** `execute`: gas is returned on success and on REVERT only. */
  function Execute(h: Host, rev: Revision, pooled: bool, trace: Trace, msg: Message, code: Bytes): (r: (Result, Trace))
    requires Suitable(h, pooled) && Runnable(code, pooled) && msg.gas <= INT63_MAX
    ensures r.0.gasLeft <= msg.gas
    ensures r.0.status.Success? || r.0.status.Reverted? || (r.0.status.Failed? && r.0.gasLeft == 0 && r.0.output == [])
  {
    InitialReady(rev, msg, code, pooled, trace);
    Report(Run(h, Frame(rev, msg, code), pooled, Initial(msg, trace)))
  }
}
